/** arabicToRoman: repeatedly append the symbol of the largest table value that still
    fits and subtract that value, using either aTorMap or its additive variant. */
module Encode {
  import opened Numerals
  import opened Decode

  /** What findLargest's scan holds after visiting the entries of m in order: the first
      entry of greatest positive value not above n16, or (0, "") when none qualifies. */
  function Largest(m: seq<Entry>, n16: int): Entry
    decreases |m|
  {
    if m == [] then Entry(0, "")
    else
      var b := Largest(m[..|m| - 1], n16);
      var last := m[|m| - 1];
      if n16 >= last.value && last.value > b.value then last else b
  }

  /** The scan yields an entry of m that fits under n16 and is at least as large as
      every entry that fits, or (0, "") when nothing fits. */
  lemma {:induction false} LargestIsMax(m: seq<Entry>, n16: int)
    ensures Largest(m, n16) == Entry(0, "") || (Largest(m, n16) in m && 0 < Largest(m, n16).value <= n16)
    ensures forall x :: x in m && x.value <= n16 ==> x.value <= Largest(m, n16).value
    decreases |m|
  {
    if m != [] {
      LargestIsMax(m[..|m| - 1], n16);
      assert m == m[..|m| - 1] + [m[|m| - 1]];
    }
  }

  /** With the entry (1, "I") present, every positive amount has a fitting entry. */
  lemma LargestFits(m: seq<Entry>, n: int)
    requires HasOne(m) && 0 < n
    ensures Largest(m, n) in m && 0 < Largest(m, n).value <= n
  {
    LargestIsMax(m, n);
  }

  /** Go's uint16(n) leaves a value that already fits in 16 bits unchanged. */
  lemma NarrowingKeepsSmall(n: int)
    requires 0 <= n < 0x1_0000
    ensures n % 0x1_0000 == n
  {
  }

  /** At a positive multiple of 65536, uint16(n) is 0 and findLargest finds nothing, so
      the subtraction in arabicToRoman's loop leaves the amount as it was and the loop
      never ends. */
  lemma NarrowingStalls(n: int, m: seq<Entry>)
    requires 0 < n && n % 0x1_0000 == 0
    ensures Largest(m, n % 0x1_0000) == Entry(0, "")
    ensures n - Largest(m, n % 0x1_0000).value == n
  {
    LargestIsMax(m, 0);
  }

  /** findLargest, with Go's uint16(n) conversion written out. */
  method FindLargest(n: int, m: seq<Entry>) returns (a: Uint16, r: string)
    ensures Entry(a, r) == Largest(m, n % 0x1_0000)
    ensures (a == 0 && r == "") || (Entry(a, r) in m && 0 < a <= n % 0x1_0000)
    ensures forall e :: e in m && e.value <= n % 0x1_0000 ==> e.value <= a
  {
    var n16 := n % 0x1_0000;
    var lAr: Uint16, lRm := 0, "";
    var i := 0;
    while i < |m|
      invariant 0 <= i <= |m|
      invariant Entry(lAr, lRm) == Largest(m[..i], n16)
    {
      var e := m[i];
      assert m[..i + 1][..i] == m[..i];
      if n16 >= e.value && e.value > lAr {
        lAr, lRm := e.value, e.symbol;
      }
      i := i + 1;
    }
    assert m[..|m|] == m;
    LargestIsMax(m, n16);
    return lAr, lRm;
  }

  /** The entries makeAddMap keeps: those whose symbol is one character, in table order. */
  function SingleSymbolEntries(m: seq<Entry>): seq<Entry>
    decreases |m|
  {
    if m == [] then []
    else
      var rest := SingleSymbolEntries(m[..|m| - 1]);
      if |m[|m| - 1].symbol| == 1 then rest + [m[|m| - 1]] else rest
  }

  /** makeAddMap keeps exactly the entries whose symbol is a single character. */
  lemma {:induction false} SingleSymbolEntriesMembers(m: seq<Entry>)
    ensures forall e :: e in SingleSymbolEntries(m) <==> e in m && |e.symbol| == 1
    decreases |m|
  {
    if m != [] {
      SingleSymbolEntriesMembers(m[..|m| - 1]);
      assert m == m[..|m| - 1] + [m[|m| - 1]];
    }
  }

  /** makeAddMap. */
  method MakeAddMap(inmap: seq<Entry>) returns (outmap: seq<Entry>)
    ensures outmap == SingleSymbolEntries(inmap)
    ensures forall e :: e in outmap <==> e in inmap && |e.symbol| == 1
  {
    outmap := [];
    var i := 0;
    while i < |inmap|
      invariant 0 <= i <= |inmap|
      invariant outmap == SingleSymbolEntries(inmap[..i])
    {
      assert inmap[..i + 1][..i] == inmap[..i];
      if |inmap[i].symbol| == 1 {
        outmap := outmap + [inmap[i]];
      }
      i := i + 1;
    }
    assert inmap[..|inmap|] == inmap;
    SingleSymbolEntriesMembers(inmap);
  }

  /** makeAddMap's scan over the first seven entries of aTorMap. */
  lemma AdditiveTableFirstHalf()
    ensures SingleSymbolEntries(ATorMap[..7]) == [Entry(1000, "M"), Entry(500, "D"), Entry(100, "C"), Entry(50, "L")]
  {
    assert SingleSymbolEntries(ATorMap[..1]) == [Entry(1000, "M")];
    assert ATorMap[..2][..1] == ATorMap[..1];
    assert SingleSymbolEntries(ATorMap[..2]) == [Entry(1000, "M")];
    assert ATorMap[..3][..2] == ATorMap[..2];
    assert SingleSymbolEntries(ATorMap[..3]) == [Entry(1000, "M"), Entry(500, "D")];
    assert ATorMap[..4][..3] == ATorMap[..3];
    assert SingleSymbolEntries(ATorMap[..4]) == [Entry(1000, "M"), Entry(500, "D")];
    assert ATorMap[..5][..4] == ATorMap[..4];
    assert SingleSymbolEntries(ATorMap[..5]) == [Entry(1000, "M"), Entry(500, "D"), Entry(100, "C")];
    assert ATorMap[..6][..5] == ATorMap[..5];
    assert SingleSymbolEntries(ATorMap[..6]) == [Entry(1000, "M"), Entry(500, "D"), Entry(100, "C")];
    assert ATorMap[..7][..6] == ATorMap[..6];
  }

  /** The seven one-letter entries of aTorMap, in its order. */
  const AddMap: seq<Entry> :=
    [ Entry(1000, "M"), Entry(500, "D"), Entry(100, "C"), Entry(50, "L"),
      Entry(10, "X"), Entry(5, "V"), Entry(1, "I") ]

  /** makeAddMap(aTorMap) is AddMap: the seven one-letter symbols and nothing else. */
  lemma AdditiveTable()
    ensures SingleSymbolEntries(ATorMap) == AddMap
  {
    AdditiveTableFirstHalf();
    assert ATorMap[..8][..7] == ATorMap[..7];
    assert SingleSymbolEntries(ATorMap[..8]) == [Entry(1000, "M"), Entry(500, "D"), Entry(100, "C"), Entry(50, "L")];
    assert ATorMap[..9][..8] == ATorMap[..8];
    assert SingleSymbolEntries(ATorMap[..9]) == [Entry(1000, "M"), Entry(500, "D"), Entry(100, "C"), Entry(50, "L"), Entry(10, "X")];
    assert ATorMap[..10][..9] == ATorMap[..9];
    assert SingleSymbolEntries(ATorMap[..10]) == [Entry(1000, "M"), Entry(500, "D"), Entry(100, "C"), Entry(50, "L"), Entry(10, "X")];
    assert ATorMap[..11][..10] == ATorMap[..10];
    assert SingleSymbolEntries(ATorMap[..11]) == [Entry(1000, "M"), Entry(500, "D"), Entry(100, "C"), Entry(50, "L"), Entry(10, "X"), Entry(5, "V")];
    assert ATorMap[..12][..11] == ATorMap[..11];
    assert SingleSymbolEntries(ATorMap[..12]) == [Entry(1000, "M"), Entry(500, "D"), Entry(100, "C"), Entry(50, "L"), Entry(10, "X"), Entry(5, "V")];
    assert ATorMap[..13][..12] == ATorMap[..12];
    assert SingleSymbolEntries(ATorMap[..13]) == [Entry(1000, "M"), Entry(500, "D"), Entry(100, "C"), Entry(50, "L"), Entry(10, "X"), Entry(5, "V"), Entry(1, "I")];
    assert ATorMap[..13] == ATorMap;
  }

  /** The table holds the entry (1, "I"), so any positive amount has a piece that fits. */
  predicate HasOne(m: seq<Entry>)
  {
    Entry(1, "I") in m
  }

  /** The table arabicToRoman uses: aTorMap, or makeAddMap(aTorMap) in additive mode
      (AdditiveTable shows that is AddMap). */
  function TableFor(additive: bool): (m: seq<Entry>)
    ensures HasOne(m)
    ensures forall e :: e in m ==> e in ATorMap
    ensures additive ==> forall e :: e in m ==> |e.symbol| == 1
  {
    assert AddMap[6] == Entry(1, "I") && ATorMap[12] == Entry(1, "I");
    if additive then AddMap else ATorMap
  }

  /** The entries arabicToRoman emits for n from table m, in order. */
  function Pieces(n: int, m: seq<Entry>): seq<Entry>
    requires n < 0x1_0000 && HasOne(m)
    decreases if n > 0 then n else 0
  {
    if n <= 0 then []
    else
      var e := Largest(m, n);
      LargestFits(m, n);
      [e] + Pieces(n - e.value, m)
  }

  /** The sum of the values of a list of entries. */
  function Total(ps: seq<Entry>): int
  {
    if ps == [] then 0 else ps[0].value + Total(ps[1..])
  }

  /** The concatenation of the symbols of a list of entries. */
  function Spell(ps: seq<Entry>): string
  {
    if ps == [] then "" else ps[0].symbol + Spell(ps[1..])
  }

  /** The Roman string arabicToRoman produces for n. */
  function RomanOf(n: int, additive: bool): string
    requires n < 0x1_0000
  {
    Spell(Pieces(n, TableFor(additive)))
  }

  /** The pieces of a positive n are table entries whose values add up to n, each
      worth no more than the one before it; a non-positive n has no pieces. */
  lemma {:induction false} PiecesDecompose(n: int, m: seq<Entry>)
    requires n < 0x1_0000 && HasOne(m)
    ensures Total(Pieces(n, m)) == if n > 0 then n else 0
    ensures forall i :: 0 <= i < |Pieces(n, m)| ==> Pieces(n, m)[i] in m && 0 < Pieces(n, m)[i].value
    ensures forall i :: 0 < i < |Pieces(n, m)| ==> Pieces(n, m)[i].value <= Pieces(n, m)[i - 1].value
    ensures n > 0 ==> Pieces(n, m) != [] && Pieces(n, m)[0].value <= n
    decreases if n > 0 then n else 0
  {
    if n > 0 {
      var e := Largest(m, n);
      LargestFits(m, n);
      var rest := Pieces(n - e.value, m);
      PiecesDecompose(n - e.value, m);
      assert Pieces(n, m) == [e] + rest;
      assert ([e] + rest)[1..] == rest;
      if rest != [] {
        LargestIsMax(m, n);
        assert rest[0].value <= e.value;
      }
    }
  }

  /** One step of the greedy decomposition: the spelling of n is the symbol of the
      largest fitting entry followed by the spelling of what remains. */
  lemma SpellStep(n: int, m: seq<Entry>)
    requires 0 < n < 0x1_0000 && HasOne(m)
    ensures 0 < Largest(m, n).value <= n
    ensures Spell(Pieces(n, m)) == Largest(m, n).symbol + Spell(Pieces(n - Largest(m, n).value, m))
  {
    var e := Largest(m, n);
    LargestFits(m, n);
    var rest := Pieces(n - e.value, m);
    assert Pieces(n, m) == [e] + rest;
    assert ([e] + rest)[1..] == rest;
  }

  /** The entry a subtractive greedy step takes from a positive amount. */
  function SubtractiveStep(n: int): Entry
  {
    if n >= 1000 then Entry(1000, "M") else if n >= 900 then Entry(900, "CM")
    else if n >= 500 then Entry(500, "D") else if n >= 400 then Entry(400, "CD")
    else if n >= 100 then Entry(100, "C") else if n >= 90 then Entry(90, "XC")
    else if n >= 50 then Entry(50, "L") else if n >= 40 then Entry(40, "XL")
    else if n >= 10 then Entry(10, "X") else if n >= 9 then Entry(9, "IX")
    else if n >= 5 then Entry(5, "V") else if n >= 4 then Entry(4, "IV")
    else Entry(1, "I")
  }

  /** The entry an additive greedy step takes from a positive amount. */
  function AdditiveStep(n: int): Entry
  {
    if n >= 1000 then Entry(1000, "M") else if n >= 500 then Entry(500, "D")
    else if n >= 100 then Entry(100, "C") else if n >= 50 then Entry(50, "L")
    else if n >= 10 then Entry(10, "X") else if n >= 5 then Entry(5, "V")
    else Entry(1, "I")
  }

  /** The scan over the first seven entries of aTorMap. */
  lemma LargestSubtractiveUpper(n: int)
    ensures Largest(ATorMap[..7], n) ==
      if n >= 1000 then Entry(1000, "M") else if n >= 900 then Entry(900, "CM")
      else if n >= 500 then Entry(500, "D") else if n >= 400 then Entry(400, "CD")
      else if n >= 100 then Entry(100, "C") else if n >= 90 then Entry(90, "XC")
      else if n >= 50 then Entry(50, "L") else Entry(0, "")
  {
    assert Largest(ATorMap[..1], n) ==
      if n >= 1000 then Entry(1000, "M") else Entry(0, "");
    assert ATorMap[..2][..1] == ATorMap[..1];
    assert Largest(ATorMap[..2], n) ==
      if n >= 1000 then Entry(1000, "M") else if n >= 900 then Entry(900, "CM")
      else Entry(0, "");
    assert ATorMap[..3][..2] == ATorMap[..2];
    assert Largest(ATorMap[..3], n) ==
      if n >= 1000 then Entry(1000, "M") else if n >= 900 then Entry(900, "CM")
      else if n >= 500 then Entry(500, "D") else Entry(0, "");
    assert ATorMap[..4][..3] == ATorMap[..3];
    assert Largest(ATorMap[..4], n) ==
      if n >= 1000 then Entry(1000, "M") else if n >= 900 then Entry(900, "CM")
      else if n >= 500 then Entry(500, "D") else if n >= 400 then Entry(400, "CD")
      else Entry(0, "");
    assert ATorMap[..5][..4] == ATorMap[..4];
    assert Largest(ATorMap[..5], n) ==
      if n >= 1000 then Entry(1000, "M") else if n >= 900 then Entry(900, "CM")
      else if n >= 500 then Entry(500, "D") else if n >= 400 then Entry(400, "CD")
      else if n >= 100 then Entry(100, "C") else Entry(0, "");
    assert ATorMap[..6][..5] == ATorMap[..5];
    assert Largest(ATorMap[..6], n) ==
      if n >= 1000 then Entry(1000, "M") else if n >= 900 then Entry(900, "CM")
      else if n >= 500 then Entry(500, "D") else if n >= 400 then Entry(400, "CD")
      else if n >= 100 then Entry(100, "C") else if n >= 90 then Entry(90, "XC")
      else Entry(0, "");
    assert ATorMap[..7][..6] == ATorMap[..6];
    assert Largest(ATorMap[..7], n) ==
      if n >= 1000 then Entry(1000, "M") else if n >= 900 then Entry(900, "CM")
      else if n >= 500 then Entry(500, "D") else if n >= 400 then Entry(400, "CD")
      else if n >= 100 then Entry(100, "C") else if n >= 90 then Entry(90, "XC")
      else if n >= 50 then Entry(50, "L") else Entry(0, "");
  }

  /** findLargest over aTorMap takes the largest of the thirteen values that fits. */
  lemma LargestSubtractive(n: int)
    requires 0 < n
    ensures Largest(ATorMap, n) == SubtractiveStep(n)
  {
    LargestSubtractiveUpper(n);
    assert ATorMap[..8][..7] == ATorMap[..7];
    assert Largest(ATorMap[..8], n) ==
      if n >= 1000 then Entry(1000, "M") else if n >= 900 then Entry(900, "CM")
      else if n >= 500 then Entry(500, "D") else if n >= 400 then Entry(400, "CD")
      else if n >= 100 then Entry(100, "C") else if n >= 90 then Entry(90, "XC")
      else if n >= 50 then Entry(50, "L") else if n >= 40 then Entry(40, "XL")
      else Entry(0, "");
    assert ATorMap[..9][..8] == ATorMap[..8];
    assert Largest(ATorMap[..9], n) ==
      if n >= 1000 then Entry(1000, "M") else if n >= 900 then Entry(900, "CM")
      else if n >= 500 then Entry(500, "D") else if n >= 400 then Entry(400, "CD")
      else if n >= 100 then Entry(100, "C") else if n >= 90 then Entry(90, "XC")
      else if n >= 50 then Entry(50, "L") else if n >= 40 then Entry(40, "XL")
      else if n >= 10 then Entry(10, "X") else Entry(0, "");
    assert ATorMap[..10][..9] == ATorMap[..9];
    assert Largest(ATorMap[..10], n) ==
      if n >= 1000 then Entry(1000, "M") else if n >= 900 then Entry(900, "CM")
      else if n >= 500 then Entry(500, "D") else if n >= 400 then Entry(400, "CD")
      else if n >= 100 then Entry(100, "C") else if n >= 90 then Entry(90, "XC")
      else if n >= 50 then Entry(50, "L") else if n >= 40 then Entry(40, "XL")
      else if n >= 10 then Entry(10, "X") else if n >= 9 then Entry(9, "IX")
      else Entry(0, "");
    assert ATorMap[..11][..10] == ATorMap[..10];
    assert Largest(ATorMap[..11], n) ==
      if n >= 1000 then Entry(1000, "M") else if n >= 900 then Entry(900, "CM")
      else if n >= 500 then Entry(500, "D") else if n >= 400 then Entry(400, "CD")
      else if n >= 100 then Entry(100, "C") else if n >= 90 then Entry(90, "XC")
      else if n >= 50 then Entry(50, "L") else if n >= 40 then Entry(40, "XL")
      else if n >= 10 then Entry(10, "X") else if n >= 9 then Entry(9, "IX")
      else if n >= 5 then Entry(5, "V") else Entry(0, "");
    assert ATorMap[..12][..11] == ATorMap[..11];
    assert Largest(ATorMap[..12], n) ==
      if n >= 1000 then Entry(1000, "M") else if n >= 900 then Entry(900, "CM")
      else if n >= 500 then Entry(500, "D") else if n >= 400 then Entry(400, "CD")
      else if n >= 100 then Entry(100, "C") else if n >= 90 then Entry(90, "XC")
      else if n >= 50 then Entry(50, "L") else if n >= 40 then Entry(40, "XL")
      else if n >= 10 then Entry(10, "X") else if n >= 9 then Entry(9, "IX")
      else if n >= 5 then Entry(5, "V") else if n >= 4 then Entry(4, "IV")
      else Entry(0, "");
    assert ATorMap[..13][..12] == ATorMap[..12];
    assert Largest(ATorMap[..13], n) == SubtractiveStep(n);
    assert ATorMap[..13] == ATorMap;
  }

  /** findLargest over the additive table takes the largest one-letter value that fits. */
  lemma LargestAdditive(n: int)
    requires 0 < n
    ensures Largest(AddMap, n) == AdditiveStep(n)
  {
    var m := AddMap;
    assert Largest(m[..1], n) ==
      if n >= 1000 then Entry(1000, "M") else Entry(0, "");
    assert m[..2][..1] == m[..1];
    assert Largest(m[..2], n) ==
      if n >= 1000 then Entry(1000, "M") else if n >= 500 then Entry(500, "D")
      else Entry(0, "");
    assert m[..3][..2] == m[..2];
    assert Largest(m[..3], n) ==
      if n >= 1000 then Entry(1000, "M") else if n >= 500 then Entry(500, "D")
      else if n >= 100 then Entry(100, "C") else Entry(0, "");
    assert m[..4][..3] == m[..3];
    assert Largest(m[..4], n) ==
      if n >= 1000 then Entry(1000, "M") else if n >= 500 then Entry(500, "D")
      else if n >= 100 then Entry(100, "C") else if n >= 50 then Entry(50, "L")
      else Entry(0, "");
    assert m[..5][..4] == m[..4];
    assert Largest(m[..5], n) ==
      if n >= 1000 then Entry(1000, "M") else if n >= 500 then Entry(500, "D")
      else if n >= 100 then Entry(100, "C") else if n >= 50 then Entry(50, "L")
      else if n >= 10 then Entry(10, "X") else Entry(0, "");
    assert m[..6][..5] == m[..5];
    assert Largest(m[..6], n) ==
      if n >= 1000 then Entry(1000, "M") else if n >= 500 then Entry(500, "D")
      else if n >= 100 then Entry(100, "C") else if n >= 50 then Entry(50, "L")
      else if n >= 10 then Entry(10, "X") else if n >= 5 then Entry(5, "V")
      else Entry(0, "");
    assert m[..7][..6] == m[..6];
    assert Largest(m[..7], n) == AdditiveStep(n);
    assert m[..7] == m;
  }

  /** The subtractive spelling of a positive n, one greedy step at a time. */
  lemma RomanOfSubtractive(n: int)
    requires 0 < n < 0x1_0000
    ensures RomanOf(n, false) == SubtractiveStep(n).symbol + RomanOf(n - SubtractiveStep(n).value, false)
  {
    LargestSubtractive(n);
    SpellStep(n, ATorMap);
  }

  /** The additive spelling of a positive n, one greedy step at a time. */
  lemma RomanOfAdditive(n: int)
    requires 0 < n < 0x1_0000
    ensures RomanOf(n, true) == AdditiveStep(n).symbol + RomanOf(n - AdditiveStep(n).value, true)
  {
    LargestAdditive(n);
    SpellStep(n, TableFor(true));
  }

  /** Spelling entries with one-character symbols gives one character per entry. */
  lemma {:induction false} SpellSingles(ps: seq<Entry>)
    requires forall i :: 0 <= i < |ps| ==> |ps[i].symbol| == 1
    ensures |Spell(ps)| == |ps|
    ensures forall i :: 0 <= i < |ps| ==> Spell(ps)[i] == ps[i].symbol[0]
  {
    if ps != [] {
      SpellSingles(ps[1..]);
      assert Spell(ps) == ps[0].symbol + Spell(ps[1..]);
    }
  }

  /** Spelled in additive mode, the output never holds a subtractive pair: no two
      neighbouring characters form a two-character key of rToaMap. */
  lemma AdditiveHasNoPair(n: int)
    requires n < 0x1_0000
    ensures forall i :: 0 < i < |RomanOf(n, true)| ==> [RomanOf(n, true)[i - 1], RomanOf(n, true)[i]] !in RToaMap
  {
    var m := TableFor(true);
    var ps := Pieces(n, m);
    var s := RomanOf(n, true);
    PiecesDecompose(n, m);
    SpellSingles(ps);
    forall i | 0 < i < |s|
      ensures [s[i - 1], s[i]] !in RToaMap
    {
      TableSound(ps[i - 1]);
      TableSound(ps[i]);
      if [s[i - 1], s[i]] in RToaMap {
        PairsAscend(s[i - 1], s[i]);
      }
    }
  }

  /** The symbols of a list of entries, one string per entry. */
  function Symbols(ps: seq<Entry>): seq<string>
  {
    if ps == [] then [] else [ps[0].symbol] + Symbols(ps[1..])
  }

  /** A two-character symbol at the front is matched whole, whatever follows it. */
  lemma ChunksAfterPair(e: Entry, t: string)
    requires e in ATorMap && |e.symbol| == 2
    ensures Chunks(e.symbol + t) == if Chunks(t).Some? then Some([e.symbol] + Chunks(t).value) else None
  {
    TableSound(e);
    var s := e.symbol + t;
    assert s[..2] == e.symbol;
    assert s[2..] == t;
  }

  /** A one-character symbol at the front, followed by the spelling of entries worth no
      more than it, is matched alone: the look-ahead finds no pair. */
  lemma ChunksAfterSingle(e: Entry, rest: seq<Entry>)
    requires e in ATorMap && |e.symbol| == 1
    requires rest != [] ==> rest[0] in ATorMap && rest[0].value <= e.value
    ensures Chunks(e.symbol + Spell(rest)) ==
      if Chunks(Spell(rest)).Some? then Some([e.symbol] + Chunks(Spell(rest)).value) else None
  {
    TableSound(e);
    var s := e.symbol + Spell(rest);
    if rest != [] {
      TableSound(rest[0]);
      assert Spell(rest) == rest[0].symbol + Spell(rest[1..]);
      assert s[..2] == [e.symbol[0], rest[0].symbol[0]];
      NoPairAcross(e, rest[0]);
    }
    assert s[..1] == e.symbol;
    assert s[1..] == Spell(rest);
  }

  /** romanToArabic splits the spelling of a non-increasing list of table entries
      back into exactly those entries, and so adds their values up again. */
  lemma {:induction false} SpellChunks(ps: seq<Entry>)
    requires forall i :: 0 <= i < |ps| ==> ps[i] in ATorMap
    requires forall i :: 0 < i < |ps| ==> ps[i].value <= ps[i - 1].value
    ensures Chunks(Spell(ps)) == Some(Symbols(ps))
    ensures Worth(Symbols(ps)) == Total(ps)
  {
    if ps != [] {
      var e, rest := ps[0], ps[1..];
      assert forall i :: 0 < i < |rest| ==> rest[i].value <= rest[i - 1].value by {
        forall i | 0 < i < |rest| ensures rest[i].value <= rest[i - 1].value {
          assert rest[i] == ps[i + 1] && rest[i - 1] == ps[i];
        }
      }
      SpellChunks(rest);
      TableSound(e);
      if |e.symbol| == 2 {
        ChunksAfterPair(e, Spell(rest));
      } else {
        ChunksAfterSingle(e, rest);
      }
    }
  }

  /** Round trip: romanToArabic gives back every amount arabicToRoman spelled, in
      both subtractive and additive mode. */
  lemma EncodeThenDecode(n: int, additive: bool)
    requires 0 <= n < 0x1_0000
    ensures Decoded(RomanOf(n, additive)) == Ok(n)
  {
    var m := TableFor(additive);
    PiecesDecompose(n, m);
    SpellChunks(Pieces(n, m));
  }

  /** arabicToRoman, with the addF flag as a parameter: choose the table, then run the
      greedy loop over it. */
  method ArabicToRoman(val: int, additive: bool) returns (outStr: string)
    requires val < 0x1_0000
    ensures outStr == RomanOf(val, additive)
    ensures val <= 0 ==> outStr == ""
  {
    var useMap := ATorMap;
    if additive {
      useMap := MakeAddMap(ATorMap);
      AdditiveTable();
    }
    assert useMap == TableFor(additive);
    outStr := LargestFirst(val, useMap);
  }

  /** The `for current > 0` loop of arabicToRoman: append the symbol findLargest picks
      and subtract its value until nothing remains. */
  method LargestFirst(val: int, useMap: seq<Entry>) returns (outStr: string)
    requires val < 0x1_0000 && HasOne(useMap)
    ensures outStr == Spell(Pieces(val, useMap))
  {
    outStr := "";
    var current := val;
    while current > 0
      invariant current <= val
      invariant Spell(Pieces(val, useMap)) == outStr + Spell(Pieces(current, useMap))
      decreases current
    {
      NarrowingKeepsSmall(current);
      var a, r := FindLargest(current, useMap);
      assert Entry(a, r) == Largest(useMap, current);
      SpellStep(current, useMap);
      ghost var tail := Spell(Pieces(current - a, useMap));
      assert outStr + (r + tail) == (outStr + r) + tail;
      outStr := outStr + r;
      current := current - a;
    }
  }
}
