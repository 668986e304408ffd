/** The converter's two fixed symbol tables and the result types its operations share.

    aTorMap (value to symbol) is kept as a sequence of entries in descending order of
    value; rToaMap (symbol to value) stays a map, as in the program. */
module Numerals {

  datatype Option<T> = None | Some(value: T)

  /** The conditions under which the program stops with log.Fatalf, or which isValArabic
      returns as an error. */
  datatype Failure =
    | NotAnInteger(input: string)    // strconv.ParseInt refused the text
    | GreaterThan4000(num: int)
    | LessThan1(num: int)
    | NotInRomanMap(input: string)   // romanToArabic met a character it cannot match

  datatype Result<T> = Ok(value: T) | Err(failure: Failure)

  /** Go's uint16, the key type of aTorMap and the value type of rToaMap. */
  type Uint16 = x: int | 0 <= x < 0x1_0000

  /** One key/value pair of aTorMap. */
  datatype Entry = Entry(value: Uint16, symbol: string)

  /** aTorMap: the thirteen values of subtractive notation with their symbols. */
  const ATorMap: seq<Entry> :=
    [ Entry(1000, "M"), Entry(900, "CM"), Entry(500, "D"), Entry(400, "CD"),
      Entry(100, "C"), Entry(90, "XC"), Entry(50, "L"), Entry(40, "XL"),
      Entry(10, "X"), Entry(9, "IX"), Entry(5, "V"), Entry(4, "IV"), Entry(1, "I") ]

  /** rToaMap: the same thirteen pairs, looked up by symbol. */
  const RToaMap: map<string, Uint16> :=
    map[ "M" := 1000, "CM" := 900, "D" := 500, "CD" := 400,
         "C" := 100, "XC" := 90, "L" := 50, "XL" := 40,
         "X" := 10, "IX" := 9, "V" := 5, "IV" := 4, "I" := 1 ]

  /** The value of a single character in rToaMap, or 0 when it is not a key. */
  function CharValue(c: char): nat
  {
    if [c] in RToaMap then RToaMap[[c]] else 0
  }

  /** What the converter relies on about one entry of aTorMap: its symbol is one
      character or two, it is a key of rToaMap with the same value, and its first
      character is worth no more than the entry (exactly the entry when it stands alone). */
  predicate Sound(e: Entry)
  {
    && 1 <= |e.symbol| <= 2
    && e.symbol in RToaMap && RToaMap[e.symbol] == e.value
    && 0 < CharValue(e.symbol[0]) <= e.value
    && (|e.symbol| == 1 ==> CharValue(e.symbol[0]) == e.value)
  }

  lemma SoundAt(i: int)
    requires 0 <= i < |ATorMap|
    ensures Sound(ATorMap[i])
  {
    if i == 0 { assert ATorMap[0] == Entry(1000, "M"); }
    else if i == 1 { assert ATorMap[1] == Entry(900, "CM"); }
    else if i == 2 { assert ATorMap[2] == Entry(500, "D"); }
    else if i == 3 { assert ATorMap[3] == Entry(400, "CD"); }
    else if i == 4 { assert ATorMap[4] == Entry(100, "C"); }
    else if i == 5 { assert ATorMap[5] == Entry(90, "XC"); }
    else if i == 6 { assert ATorMap[6] == Entry(50, "L"); }
    else if i == 7 { assert ATorMap[7] == Entry(40, "XL"); }
    else if i == 8 { assert ATorMap[8] == Entry(10, "X"); }
    else if i == 9 { assert ATorMap[9] == Entry(9, "IX"); }
    else if i == 10 { assert ATorMap[10] == Entry(5, "V"); }
    else if i == 11 { assert ATorMap[11] == Entry(4, "IV"); }
    else { assert ATorMap[12] == Entry(1, "I"); }
  }

  /** Every entry of aTorMap is sound; in particular the two tables agree. */
  lemma TableSound(e: Entry)
    requires e in ATorMap
    ensures Sound(e)
  {
    var i :| 0 <= i < |ATorMap| && ATorMap[i] == e;
    SoundAt(i);
  }

  /** The two-character keys of rToaMap are exactly the subtractive pairs: a smaller
      symbol written before a larger one. */
  lemma PairsAscend(c: char, d: char)
    requires [c, d] in RToaMap
    ensures 0 < CharValue(c) < CharValue(d)
  {
  }

  /** A one-character symbol followed by the first character of a symbol worth no more
      than it never forms a key of rToaMap. This is why the greedy two-character look-ahead
      of romanToArabic cannot read across a boundary of arabicToRoman's output. */
  lemma {:induction false} NoPairAcross(e: Entry, f: Entry)
    requires e in ATorMap && f in ATorMap
    requires |e.symbol| == 1 && f.value <= e.value
    ensures [e.symbol[0], f.symbol[0]] !in RToaMap
  {
    TableSound(e);
    TableSound(f);
    if [e.symbol[0], f.symbol[0]] in RToaMap {
      PairsAscend(e.symbol[0], f.symbol[0]);
    }
  }
}
