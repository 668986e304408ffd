# roman-converter, modelled in Dafny

A model of the numeral-conversion core of the `roman` command-line converter (`main.go`),
which turns Arabic numbers in 1..4000 into Roman numerals and back. It covers:

- the two symbol tables `aTorMap` and `rToaMap`;
- the input checks `whichNumeralType`, `isValArabic` and `makeInt64`;
- the greedy decoder `romanToArabic`;
- the greedy encoder `arabicToRoman`, together with `findLargest` and `makeAddMap` (the additive
  table);
- the output side `formatValue` and `genRange`.

The global flags `addF` and `simpleOutF` are parameters `additive` and `simple`. Each
`log.Fatalf` is an `Err` of a `Result`.

Modules, one file each:

- `Numerals` (`numerals.dfy`): shared types, `Uint16`, the tables (`aTorMap` as a
  descending sequence of entries, `rToaMap` as a map) and the facts about them.
- `Decimal` (`decimal.dfy`): `%d` formatting and `strconv.ParseInt(s, 10, 64)`, the two
  library conversions the converter relies on.
- `Decode` (`decode.dfy`): `romanToArabic` as a loop, proved against the function `Decoded`.
- `Encode` (`encode.dfy`): `findLargest`, `makeAddMap` and `arabicToRoman` as loops, proved
  against the functions `Largest`, `SingleSymbolEntries` and `RomanOf`. Also the round trip
  `romanToArabic(arabicToRoman(n)) == n` in both notations.
- `Notation` (`notation.dfy`): an independent reference. The textbook numeral is written
  digit by digit, and the greedy output is proved equal to it.
- `Classify` (`classify.dfy`): `whichNumeralType`, `isValArabic` and `makeInt64`.
- `Output` (`output.dfy`): `formatValue`, and `genRange` as a loop. Lemmas read each output line
  back into its fields.
- `Usage` (`usage.dfy`): the sample invocations of the usage text and the range ends, as
  facts about the model.

Go iterates a map in no fixed order. `findLargest` keeps the largest key that fits, and keys
are distinct, so the order does not change the result. `LargestIsMax` proves that the scan in
table order yields that maximum.

## Model

| member | source | states |
|---|---|---|
| Numerals.TableSound | main.go:61-91 | every aTorMap entry has a one- or two-letter symbol; the symbol is a key of rToaMap with the same value; its first letter is worth no more than the entry, and exactly the entry when it stands alone |
| Numerals.PairsAscend | main.go:77-91 | every two-letter key of rToaMap is a smaller letter written before a larger one |
| Numerals.NoPairAcross | main.go:77-91 | a one-letter symbol followed by the first letter of a symbol worth no more never forms a two-letter key, so the decoder's look-ahead cannot read across a boundary of the encoder's output |
| Decode.Chunks | main.go:189-213 | the pieces matched at each position, two characters before one, are keys of rToaMap and join back to the input; None when a position matches neither |
| Decode.RomanToArabic | main.go:182-216 | the scan returns the sum of the matched pieces' values, or stops with NotInRomanMap on a character it cannot match |
| Decode.DecodesIffRomanChars | main.go:182-216 | decoding succeeds exactly when every character is one of I, V, X, L, C, D, M (both directions) |
| Encode.NarrowingStalls | main.go:218-257 | at every positive multiple of 65536 uint16(n) is 0, findLargest returns (0, "") from any map, and the amount arabicToRoman's loop subtracts it from stays the same |
| Encode.FindLargest | main.go:243-257 | the result is (0, "") or an entry of the map whose key is in 1..uint16(n); no entry that fits has a larger key |
| Encode.LargestIsMax | main.go:243-257 | the scan's result is (0, "") or a member of the table that fits under n, and is at least as large as every entry that fits |
| Encode.LargestFits | main.go:234-238 | with (1, "I") in the table, every positive amount gets an entry worth between 1 and the amount, so each loop step makes progress |
| Encode.SingleSymbolEntriesMembers | main.go:259-269 | an entry is kept exactly when it is in the input table and its symbol is one character |
| Encode.MakeAddMap | main.go:259-269 | the new table holds exactly the one-character entries of the input (both directions), in table order |
| Encode.AdditiveTable | main.go:259-269 | makeAddMap(aTorMap) is exactly M, D, C, L, X, V, I with values 1000, 500, 100, 50, 10, 5, 1 |
| Encode.TableFor | main.go:229-232 | the table chosen by the addF flag contains (1, "I") and only entries of aTorMap; in additive mode, only one-letter symbols |
| Encode.PiecesDecompose | main.go:218-241 | the entries emitted for n are table members with positive values, sum to n, and are non-increasing; none for n <= 0 |
| Encode.SpellStep | main.go:234-238 | one loop step: the output is the symbol of the largest fitting entry followed by the output for what remains |
| Encode.LargestSubtractive | main.go:243-257 | over aTorMap the scan takes M, CM, D, CD, C, XC, L, XL, X, IX, V, IV or I: the largest of the thirteen values that fits |
| Encode.LargestAdditive | main.go:243-257 | over the additive table the scan takes the largest of M, D, C, L, X, V, I that fits |
| Encode.RomanOfSubtractive | main.go:234-238 | the subtractive output for n begins with the subtractive step's symbol, followed by the output for the remainder |
| Encode.RomanOfAdditive | main.go:234-238 | the same for additive mode with the additive step |
| Encode.AdditiveHasNoPair | main.go:229-232 | additive output never has two neighbouring letters that form a two-letter key of rToaMap |
| Encode.ChunksAfterPair | main.go:198-202 | a two-letter symbol at the front is matched whole, whatever follows |
| Encode.ChunksAfterSingle | main.go:205-208 | a one-letter symbol followed by symbols worth no more is matched alone |
| Encode.SpellChunks | main.go:182-216 | the decoder splits the spelling of a non-increasing run of table entries back into exactly their symbols, and their values add up to the entries' total |
| Encode.EncodeThenDecode | main.go:182-241 | round trip: for every n in 0..65535, in both notations, romanToArabic(arabicToRoman(n)) == n |
| Encode.ArabicToRoman | main.go:218-241 | the result is the greedy spelling of val over aTorMap, or over makeAddMap(aTorMap) when addF is set; empty for val <= 0 |
| Encode.LargestFirst | main.go:234-238 | the `for current > 0` loop appends exactly the symbols of the greedy decomposition, in order |
| Notation.RomanOfStep | main.go:234-238 | one greedy step in either notation takes a positive amount and writes its symbol first |
| Notation.StandardStep | main.go:234-238 | the textbook numeral of a positive n begins with the greedy step's symbol, followed by the textbook numeral of the remainder |
| Notation.RomanOfIsGreedy | main.go:234-238 | the loop's output equals the step-by-step greedy spelling |
| Notation.GreedyIsStandard | main.go:218-241 | the greedy spelling equals the textbook numeral |
| Notation.RomanOfIsStandard | main.go:218-241 | arabicToRoman writes the textbook numeral: one M per thousand, then the hundreds, tens and units digits; 4 and 9 are subtractive pairs; in additive mode 4 is four ones and 9 is a five followed by four ones |
| Classify.PatternsDisjoint | main.go:144-145 | no string matches both the Arabic and the Roman pattern |
| Classify.WhichNumeralType | main.go:142-156 | Arabic exactly when the string is a non-empty run of digits starting 1-9; Roman exactly when it is a non-empty run of I, V, X, L, C, D, M; UnDef exactly when neither; "" is UnDef |
| Classify.IsValArabic | main.go:158-169 | no error exactly when 1 <= num <= 4000; above 4000 the "greater than 4000" error, checked first; below 1 the "less than 1" error |
| Classify.MakeInt64 | main.go:171-180 | succeeds exactly when the text parses as an int64 in 1..4000, with that value; a parse failure stops with NotAnInteger, a range failure with isValArabic's error |
| Classify.ArabicInputConverts | main.go:171-180 | a string classified Arabic converts exactly when its value is at most 4000, and is then the decimal spelling of that value; otherwise the error is GreaterThan4000, or NotAnInteger when the value overflows int64 |
| Classify.FormattedConverts | main.go:171-180 | the decimal spelling of every n in 1..4000 is classified Arabic and converts back to n |
| Classify.RomanInputDecodes | main.go:205-211 | a string classified Roman never reaches romanToArabic's fatal branch |
| Decimal.Digits | main.go:278 | %d of a natural number is a non-empty run of decimal digits |
| Decimal.DigitsRoundTrip | main.go:278 | the digits %d writes for n denote n |
| Decimal.DigitsNoLeadingZero | main.go:144 | %d of a positive number does not start with 0, so it matches the Arabic pattern |
| Decimal.LeadingDigitPositive | main.go:144 | a digit run starting 1-9 denotes a positive number |
| Decimal.CanonicalDigits | main.go:172 | a digit run without leading zeros is exactly what %d writes for its value |
| Decimal.ParseInt64 | main.go:172 | a successful parse gives a value within the int64 range |
| Decimal.ParseFormatted | main.go:172 | ParseInt(%d of n) == n for every int64 n, negative ones included |
| Output.FormatValue | main.go:271-294 | Roman: the numeral alone in simple mode, otherwise "<n> = <numeral>", followed by "\t (add)" in additive mode; Arabic: "<n>" in simple mode, otherwise "<numeral> = <n>"; any other type: "NA" |
| Output.GenRange | main.go:296-304 | one line per value from start to end inclusive, in ascending order, and none when start > end (any start and end then); line j is formatValue(start + j, arabicToRoman(start + j), Roman); in simple mode each positive line decodes back to its value |
| Output.SimpleLinesDecode | main.go:296-304 | simple-mode range lines decode back to the values they were made from |
| Output.RomanOfLetters | main.go:145 | for positive n, arabicToRoman's output matches the Roman pattern and holds no separator |
| Output.WordsOfEquation | main.go:278 | a line "f = r" followed by a separator or nothing reads back as the fields f, "=", r |
| Output.AddMarkWords | main.go:280 | the additive marker "\t (add)" is one field, "(add)" |
| Output.RomanVerboseWords | main.go:277-281 | a verbose Roman line reads back as the fields n, "=", the numeral, plus "(add)" exactly in additive mode |
| Output.RomanSimpleLine | main.go:275-276 | a simple Roman line for n in 1..4000 is classified Roman and decodes to n |
| Output.RomanVerboseLine | main.go:277-281 | the fields of a verbose Roman line for n in 1..4000 are n, "=", the numeral and the marker; the first converts back to n and the third decodes to n |
| Output.RomanLineReadsBack | main.go:274-282 | Roman output reads back to n in both simple and verbose mode |
| Output.ArabicLineReadsBack | main.go:283-288 | Arabic output is the decoded value in simple mode; in verbose mode it is the fields numeral, "=", value; either way the value parses back |
| Usage.Subtractive1965 | main.go:24 | 1965 is "MCMLXV" in subtractive notation |
| Usage.Additive1965 | main.go:26 | 1965 is "MDCCCCLXV" in additive notation |
| Usage.Sample1965 | main.go:24 | "1965" is classified Arabic and converts to 1965 |
| Usage.Sample1965Line | main.go:24 | `roman 1965` prints "1965 = MCMLXV": formatValue of 1965 with arabicToRoman(1965) as the numeral |
| Usage.SampleMCMLXV | main.go:25 | "MCMLXV" is classified Roman and decodes to 1965 |
| Usage.SampleMCMLXVLine | main.go:25 | `roman MCMLXV` prints "MCMLXV = 1965": romanToArabic("MCMLXV") succeeds and formatValue of its result prints that line |
| Usage.Sample1965AdditiveLine | main.go:26 | `roman -a=true 1965` prints "1965 = MDCCCCLXV" followed by the additive marker: formatValue of 1965 with arabicToRoman(1965) in additive mode |
| Usage.SampleMDCCCCLXV | main.go:27 | "MDCCCCLXV" is classified Roman and decodes to 1965 |
| Usage.RangeEnds | main.go:7 | 1 is "I" and 4000 is "MMMM" in either notation |
| Usage.OutOfRange | main.go:141-169 | "4001" is classified Arabic and makeInt64 stops it with "greater than 4000"; "0" is classified UnDef (the Arabic pattern needs a leading 1-9), so the program never reaches makeInt64's "less than 1" error, which makeInt64 would give |
| Usage.SampleFour | main.go:229-232 | 4 is "IV" in subtractive and "IIII" in additive notation |
| Usage.SampleIIII | main.go:182-216 | the decoder accepts the non-canonical "IIII" as 4, as well as "IV" |
| Usage.SampleBadLetter | main.go:205-211 | "MCMZ" is classified UnDef, and decoding it fails with NotInRomanMap |
| Usage.SampleRangeNumerals | main.go:28 | a range starting at 100 spells 100, 101, 102 as C, CI, CII |
| Usage.SampleRange | main.go:28 | genRange from 100 to 102 in verbose subtractive mode yields exactly "100 = C", "101 = CI", "102 = CII" |

## Left out

- Flag parsing, the usage text and the `main` dispatch: command-line plumbing. The two
  flags the core reads are parameters.
- `writeToFile` and every `fmt.Println` / `log.Printf`: file and terminal I/O.
- `strings.ToUpper`: inputs are taken as already upper case.
- The `regexp` engine: the two patterns are modelled as predicates over characters.
- Go map iteration order: the tables are sequences in descending order, and the scan's
  result does not depend on order (see `Encode.LargestIsMax`).
- Bytes versus characters: the source indexes bytes and the model indexes characters. A
  character that is not one of the seven letters makes decoding fail either way.
- `Decimal.ParseInt64`: the syntax error and the range error of `strconv.ParseInt` are one
  `None`, because makeInt64 treats them alike.
- `Decode.RomanToArabic`: the accumulator is an unbounded integer, not an int64, so
  wrap-around on inputs longer than about 10^16 characters is not modelled.
- `Output.ArabicLineReadsBack`: requires the decoded value to fit in an int64, for the same
  reason.
- `Encode.ArabicToRoman`: requires `val < 65536`, the "n is in uint16 space" assumption of
  findLargest. At or above 65536, `uint16(current)` eventually becomes 0. findLargest then
  returns key 0, and the loop never ends (`Encode.NarrowingStalls`), so the model has no
  behaviour to state there.
- `Output.GenRange`: requires `end < 65536` when the range is not empty, because it calls
  arabicToRoman on every value of the range. The -e flag has no upper bound, so
  `roman -r=true -e 65536` never finishes; the model states that stall instead of the
  missing output.
- `Encode.EncodeThenDecode`: stated for 0..65535, the domain of arabicToRoman above. The
  program itself only converts 1..4000.
