/** romanToArabic: a left-to-right scan that matches a two-character key of rToaMap
    before a one-character key, and adds up the values of what it matched. */
module Decode {
  import opened Numerals

  /** The characters that are one-character keys of rToaMap. */
  predicate IsRomanChar(c: char)
  {
    c in "IVXLCDM"
  }

  /** The concatenation of a list of pieces. */
  function Join(cs: seq<string>): string
  {
    if cs == [] then "" else cs[0] + Join(cs[1..])
  }

  /** The pieces romanToArabic matches in s, in order: at each position the two
      characters there when they form a key of rToaMap, otherwise the one character
      there. None when some position matches neither. The pieces always spell s again
      and are all keys of rToaMap. */
  function Chunks(s: string): (r: Option<seq<string>>)
    ensures r.Some? ==> Join(r.value) == s
    ensures r.Some? ==> forall c :: c in r.value ==> c in RToaMap
    decreases |s|
  {
    if s == [] then Some([])
    else
      var w := if |s| >= 2 && s[..2] in RToaMap then 2 else 1;
      if s[..w] !in RToaMap then None
      else
        match Chunks(s[w..])
        case None => None
        case Some(rest) =>
          assert s == s[..w] + s[w..];
          Some([s[..w]] + rest)
  }

  /** The sum of the values of a list of keys of rToaMap. */
  function Worth(cs: seq<string>): nat
    requires forall c :: c in cs ==> c in RToaMap
  {
    if cs == [] then 0 else RToaMap[cs[0]] + Worth(cs[1..])
  }

  /** What romanToArabic yields for s: the sum of the matched pieces, or the failure
      that makes the program stop. */
  function Decoded(s: string): Result<int>
  {
    match Chunks(s)
    case Some(cs) => Ok(Worth(cs))
    case None => Err(NotInRomanMap(s))
  }

  /** romanToArabic. */
  method RomanToArabic(str: string) returns (r: Result<int>)
    ensures r == Decoded(str)
  {
    var val := 0;
    var i := 0;
    while i < |str|
      invariant 0 <= i <= |str|
      invariant Chunks(str).Some? <==> Chunks(str[i..]).Some?
      invariant Chunks(str).Some? ==> Worth(Chunks(str).value) == val + Worth(Chunks(str[i..]).value)
      decreases |str| - i
    {
      var c := str[i];
      // the two characters at i, or nothing when i is the last position
      var xc := if i + 1 < |str| then [c, str[i + 1]] else [];
      assert str[i..][..1] == [c];
      assert i + 1 < |str| ==> str[i..][..2] == xc;
      if xc in RToaMap {
        assert str[i..][2..] == str[i + 2..];
        val := val + RToaMap[xc];
        i := i + 2;
      } else if [c] in RToaMap {
        assert str[i..][1..] == str[i + 1..];
        val := val + RToaMap[[c]];
        i := i + 1;
      } else {
        return Err(NotInRomanMap(str));
      }
    }
    return Ok(val);
  }

  /** Decoding fails exactly when the string holds a character that is not one of
      I, V, X, L, C, D, M. */
  lemma {:induction false} DecodesIffRomanChars(s: string)
    ensures Decoded(s).Ok? <==> forall i :: 0 <= i < |s| ==> IsRomanChar(s[i])
    decreases |s|
  {
    if s != [] {
      assert [s[0]] in RToaMap <==> IsRomanChar(s[0]);
      var w := if |s| >= 2 && s[..2] in RToaMap then 2 else 1;
      DecodesIffRomanChars(s[w..]);
      if w == 2 {
        assert s[..2] == [s[0], s[1]];
        PairChars(s[0], s[1]);
      }
      assert s[..1] == [s[0]];
      AllRomanSplit(s, w);
    }
  }

  /** A string is all Roman letters exactly when its first w characters and the rest are. */
  lemma AllRomanSplit(s: string, w: nat)
    requires w <= |s|
    ensures (forall i :: 0 <= i < |s| ==> IsRomanChar(s[i])) <==>
      (forall i :: 0 <= i < w ==> IsRomanChar(s[i])) && (forall i :: 0 <= i < |s[w..]| ==> IsRomanChar(s[w..][i]))
  {
    if forall i :: 0 <= i < w ==> IsRomanChar(s[i]) {
      if forall i :: 0 <= i < |s[w..]| ==> IsRomanChar(s[w..][i]) {
        forall i | 0 <= i < |s| ensures IsRomanChar(s[i]) {
          if i >= w {
            assert s[i] == s[w..][i - w];
          }
        }
      }
    }
  }

  /** Both characters of a two-character key are themselves keys. */
  lemma PairChars(c: char, d: char)
    requires [c, d] in RToaMap
    ensures IsRomanChar(c) && IsRomanChar(d)
  {
  }
}
