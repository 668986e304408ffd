/** The textbook form of a Roman numeral, written digit by digit, as an independent
    reference for what the greedy arabicToRoman loop spells. */
module Notation {
  import opened Numerals
  import opened Encode

  /** k copies of s. */
  function Rep(s: string, k: nat): string
  {
    if k == 0 then "" else s + Rep(s, k - 1)
  }

  /** One decimal digit in subtractive notation, given the letters for one, five and ten
      units of its place: 4 and 9 are written as a subtractive pair. */
  function SubtractiveDigit(d: nat, one: string, five: string, ten: string): string
    requires d < 10
  {
    if d == 9 then one + ten
    else if d >= 5 then five + Rep(one, d - 5)
    else if d == 4 then one + five
    else Rep(one, d)
  }

  /** One decimal digit in additive notation: a five when the digit reaches five, then ones. */
  function AdditiveDigit(d: nat, one: string, five: string): string
    requires d < 10
  {
    if d >= 5 then five + Rep(one, d - 5) else Rep(one, d)
  }

  /** One decimal digit in the chosen notation. */
  function PlaceDigit(d: nat, additive: bool, one: string, five: string, ten: string): string
    requires d < 10
  {
    if additive then AdditiveDigit(d, one, five) else SubtractiveDigit(d, one, five, ten)
  }

  /** The numeral for an amount below 100: the tens digit, then the units digit. */
  function Below100(r: nat, additive: bool): string
    requires r < 100
  {
    PlaceDigit(r / 10, additive, "X", "L", "C") + PlaceDigit(r % 10, additive, "I", "V", "X")
  }

  /** The numeral for an amount below 1000: the hundreds digit, then the rest. */
  function Below1000(r: nat, additive: bool): string
    requires r < 1000
  {
    PlaceDigit(r / 100, additive, "C", "D", "M") + Below100(r % 100, additive)
  }

  /** The standard numeral for n: one M per thousand, then the hundreds, tens and units. */
  function Standard(n: nat, additive: bool): string
  {
    Rep("M", n / 1000) + Below1000(n % 1000, additive)
  }

  /** The entry one greedy step takes in the given notation. */
  function Step(n: int, additive: bool): Entry
  {
    if additive then AdditiveStep(n) else SubtractiveStep(n)
  }

  /** How many units of its place one greedy step takes from a digit. */
  function DigitTake(d: nat, additive: bool): nat
  {
    if additive then (if d >= 5 then 5 else 1)
    else if d == 9 then 9 else if d >= 5 then 5 else if d == 4 then 4 else 1
  }

  /** The symbol one greedy step writes for a digit, given the letters of its place. */
  function DigitSymbol(d: nat, additive: bool, one: string, five: string, ten: string): string
  {
    if additive then (if d >= 5 then five else one)
    else if d == 9 then one + ten else if d >= 5 then five else if d == 4 then one + five else one
  }

  /** Within one place, a digit starts with the symbol of the greedy step. */
  lemma DigitStep(d: nat, additive: bool, one: string, five: string, ten: string)
    requires 0 < d < 10
    ensures DigitTake(d, additive) <= d
    ensures PlaceDigit(d, additive, one, five, ten) ==
      DigitSymbol(d, additive, one, five, ten) + PlaceDigit(d - DigitTake(d, additive), additive, one, five, ten)
  {
    if additive {
      if d >= 5 {
        assert AdditiveDigit(d - 5, one, five) == Rep(one, d - 5);
      }
    } else if d == 9 || d == 4 {
      assert SubtractiveDigit(0, one, five, ten) == "";
    } else if d >= 5 {
      assert SubtractiveDigit(d - 5, one, five, ten) == Rep(one, d - 5);
    } else {
      assert SubtractiveDigit(d - 1, one, five, ten) == Rep(one, d - 1);
    }
  }

  /** A digit step followed by the same tail. */
  lemma DigitStepThen(d: nat, additive: bool, one: string, five: string, ten: string, u: string)
    requires 0 < d < 10
    ensures DigitTake(d, additive) <= d
    ensures PlaceDigit(d, additive, one, five, ten) + u ==
      DigitSymbol(d, additive, one, five, ten) + (PlaceDigit(d - DigitTake(d, additive), additive, one, five, ten) + u)
  {
    DigitStep(d, additive, one, five, ten);
  }

  /** Below 10, the greedy step takes the digit's symbol for units. */
  lemma UnitsEntry(r: nat, additive: bool)
    requires 0 < r < 10
    ensures Step(r, additive) == Entry(DigitTake(r, additive), DigitSymbol(r, additive, "I", "V", "X"))
  {
  }

  /** Below 10, the standard numeral starts with the symbol of the greedy step. */
  lemma UnitsStep(r: nat, additive: bool)
    requires 0 < r < 10
    ensures r - Step(r, additive).value >= 0
    ensures Below100(r, additive) == Step(r, additive).symbol + Below100(r - Step(r, additive).value, additive)
  {
    UnitsEntry(r, additive);
    var rest := r - DigitTake(r, additive);
    assert r / 10 == 0 && r % 10 == r && rest / 10 == 0 && rest % 10 == rest;
    DigitStep(r, additive, "I", "V", "X");
    var z := PlaceDigit(0, additive, "X", "L", "C");
    assert z == "";
    assert Below100(r, additive) == z + PlaceDigit(r, additive, "I", "V", "X");
    assert Below100(rest, additive) == z + PlaceDigit(rest, additive, "I", "V", "X");
  }

  /** From 10 to 99, the greedy step takes the tens digit's symbol for tens. */
  lemma TensEntry(r: nat, additive: bool)
    requires 10 <= r < 100
    ensures Step(r, additive) == Entry(10 * DigitTake(r / 10, additive), DigitSymbol(r / 10, additive, "X", "L", "C"))
  {
  }

  /** From 10 to 99, the standard numeral starts with the symbol of the greedy step. */
  lemma TensStep(r: nat, additive: bool)
    requires 10 <= r < 100
    ensures r - Step(r, additive).value >= 0
    ensures Below100(r, additive) == Step(r, additive).symbol + Below100(r - Step(r, additive).value, additive)
  {
    TensEntry(r, additive);
    var d := r / 10;
    var k := DigitTake(d, additive);
    DigitStepThen(d, additive, "X", "L", "C", PlaceDigit(r % 10, additive, "I", "V", "X"));
    var rest := r - 10 * k;
    assert rest / 10 == d - k && rest % 10 == r % 10;
  }

  /** From 100 to 999, the greedy step takes the hundreds digit's symbol for hundreds. */
  lemma HundredsEntry(r: nat, additive: bool)
    requires 100 <= r < 1000
    ensures Step(r, additive) == Entry(100 * DigitTake(r / 100, additive), DigitSymbol(r / 100, additive, "C", "D", "M"))
  {
  }

  /** From 100 to 999, the standard numeral starts with the symbol of the greedy step. */
  lemma HundredsStep(r: nat, additive: bool)
    requires 100 <= r < 1000
    ensures r - Step(r, additive).value >= 0
    ensures Below1000(r, additive) == Step(r, additive).symbol + Below1000(r - Step(r, additive).value, additive)
  {
    HundredsEntry(r, additive);
    var d := r / 100;
    var k := DigitTake(d, additive);
    DigitStepThen(d, additive, "C", "D", "M", Below100(r % 100, additive));
    var rest := r - 100 * k;
    assert rest / 100 == d - k && rest % 100 == r % 100;
  }

  /** Below 100 the hundreds digit is empty. */
  lemma Below1000Small(r: nat, additive: bool)
    requires r < 100
    ensures Below1000(r, additive) == Below100(r, additive)
  {
    assert r / 100 == 0 && r % 100 == r;
  }

  /** Below 1000 there are no thousands. */
  lemma StandardSmall(n: nat, additive: bool)
    requires n < 1000
    ensures Standard(n, additive) == Below1000(n, additive)
  {
    assert n / 1000 == 0 && n % 1000 == n;
  }

  /** From 1000 on, the greedy step takes an M, one of the thousands. */
  lemma ThousandsStep(n: nat, additive: bool)
    requires 1000 <= n
    ensures Step(n, additive) == Entry(1000, "M")
    ensures Standard(n, additive) == "M" + Standard(n - 1000, additive)
  {
    var q, r := n / 1000, n % 1000;
    ShiftThousand(n);
    assert Rep("M", q) == "M" + Rep("M", q - 1);
    assert Standard(n, additive) == Rep("M", q) + Below1000(r, additive);
    assert Standard(n - 1000, additive) == Rep("M", q - 1) + Below1000(r, additive);
  }

  /** Taking a thousand off n lowers the count of thousands by one and leaves the
      rest alone. */
  lemma ShiftThousand(n: int)
    requires 1000 <= n
    ensures (n - 1000) / 1000 == n / 1000 - 1 && (n - 1000) % 1000 == n % 1000
  {
    var q, r := n / 1000, n % 1000;
    assert n - 1000 == 1000 * (q - 1) + r;
  }

  /** Below 1000, the standard numeral starts with the symbol of the greedy step. */
  lemma SmallStep(n: nat, additive: bool)
    requires 0 < n < 1000
    ensures n - Step(n, additive).value >= 0
    ensures Below1000(n, additive) == Step(n, additive).symbol + Below1000(n - Step(n, additive).value, additive)
  {
    if n >= 100 {
      HundredsStep(n, additive);
    } else {
      var e := Step(n, additive);
      if n >= 10 {
        TensStep(n, additive);
      } else {
        UnitsStep(n, additive);
      }
      Below1000Small(n, additive);
      Below1000Small(n - e.value, additive);
    }
  }

  /** For every positive n, the standard numeral starts with the symbol of the greedy step. */
  lemma StandardStep(n: nat, additive: bool)
    requires 0 < n
    ensures n - Step(n, additive).value >= 0
    ensures Standard(n, additive) == Step(n, additive).symbol + Standard(n - Step(n, additive).value, additive)
  {
    if n >= 1000 {
      ThousandsStep(n, additive);
    } else {
      SmallStep(n, additive);
      StandardSmall(n, additive);
      StandardSmall(n - Step(n, additive).value, additive);
    }
  }

  /** The greedy spelling written with Step: the symbol of one step, then the rest. */
  function Greedy(n: int, additive: bool): string
    decreases if n > 0 then n else 0
  {
    if n <= 0 then ""
    else
      StepPositive(n, additive);
      Step(n, additive).symbol + Greedy(n - Step(n, additive).value, additive)
  }

  /** A greedy step takes a positive amount no larger than what is left. */
  lemma StepPositive(n: int, additive: bool)
    requires 0 < n
    ensures 0 < Step(n, additive).value <= n
  {
  }

  /** arabicToRoman's loop over its table is the greedy spelling. */
  lemma {:induction false} RomanOfIsGreedy(n: nat, additive: bool)
    requires n < 0x1_0000
    ensures RomanOf(n, additive) == Greedy(n, additive)
    decreases n
  {
    if n > 0 {
      RomanOfStep(n, additive);
      RomanOfIsGreedy(n - Step(n, additive).value, additive);
    }
  }

  /** The greedy spelling is the standard numeral. */
  lemma {:induction false} GreedyIsStandard(n: nat, additive: bool)
    ensures Greedy(n, additive) == Standard(n, additive)
    decreases n
  {
    if n == 0 {
      assert Standard(0, additive) == "";
    } else {
      StandardStep(n, additive);
      StepPositive(n, additive);
      GreedyIsStandard(n - Step(n, additive).value, additive);
    }
  }

  /** arabicToRoman spells every amount below 65536 as its standard numeral. */
  lemma RomanOfIsStandard(n: nat, additive: bool)
    requires n < 0x1_0000
    ensures RomanOf(n, additive) == Standard(n, additive)
  {
    RomanOfIsGreedy(n, additive);
    GreedyIsStandard(n, additive);
  }

  /** One greedy step of arabicToRoman, in either notation. */
  lemma RomanOfStep(n: nat, additive: bool)
    requires 0 < n < 0x1_0000
    ensures RomanOf(n, additive) == Step(n, additive).symbol + RomanOf(n - Step(n, additive).value, additive)
  {
    if additive {
      RomanOfAdditive(n);
    } else {
      RomanOfSubtractive(n);
    }
  }
}
