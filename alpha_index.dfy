/**
 * The two conversions between a letter and its alphabet position:
 * `_charToAlphaIndex` (a search loop) and `_indexToChar` (arithmetic with
 * wrap-around). Both take the alphabet string as a parameter, as in the
 * source; the cipher always passes `Alphabet.Letters`.
 */
module AlphaIndex {
  import opened JsBuiltins
  import opened Alphabet
  import opened ModArith

  /** JavaScript's `null` or a found position. */
  datatype Option<T> = None | Some(value: T)

  /**
   * The letter at a position, wrapping around the alphabet. A negative
   * index is lifted once by the alphabet's length, then JavaScript's
   * truncating `%` is taken and `charAt` looks the position up (giving the
   * empty string for a position still negative).
   */
  function IndexToChar(index: int, alphabet: string): (r: string)
    requires |alphabet| > 0
    ensures -|alphabet| <= index ==> r == [alphabet[index % |alphabet|]]
  {
    var n := |alphabet|;
    var lifted := if index < 0 then index + n else index;
    var convertedIndex := Rem(lifted, n);
    ModShift(index, n);
    CharAt(alphabet, convertedIndex)
  }

  /**
   * The position of `c` in `alphabet`. The outer loop repeats the scan for
   * as long as nothing was found, so a character outside the alphabet would
   * keep it running forever; the precondition excludes that case, and the
   * outer loop then runs exactly once. Every match during the scan records
   * `alphabet.indexOf` of the matching character, which is the first position
   * of `c`.
   */
  method CharToAlphaIndex(c: char, alphabet: string) returns (alphaIndex: nat)
    requires c in alphabet
    ensures alphaIndex < |alphabet| && alphabet[alphaIndex] == c
    ensures c !in alphabet[..alphaIndex]
    ensures IndexToChar(alphaIndex, alphabet) == [c]
  {
    var found: Option<nat> := None;
    while found.None?
      invariant found.Some? ==> found.value < |alphabet| && alphabet[found.value] == c && c !in alphabet[..found.value]
      decreases if found.None? then 1 else 0
    {
      for j := 0 to |alphabet|
        invariant found.None? <==> c !in alphabet[..j]
        invariant found.Some? ==> found.value < |alphabet| && alphabet[found.value] == c && c !in alphabet[..found.value]
      {
        assert alphabet[..j + 1] == alphabet[..j] + [alphabet[j]];
        if alphabet[j] == c {
          found := Some(IndexOf(alphabet, alphabet[j]));
        }
      }
      assert alphabet[..|alphabet|] == alphabet;
    }
    alphaIndex := found.value;
    ModSmall(alphaIndex, |alphabet|);
  }

  /**
   * On the cipher's alphabet, looking a letter up and converting the
   * position back give the letter again, and the position found is `Pos(c)`
   * (the two conversions are each other's opposite).
   */
  lemma LookupIsPos(c: char, alphaIndex: nat)
    requires IsLetter(c)
    requires alphaIndex < |Letters| && Letters[alphaIndex] == c
    ensures alphaIndex == Pos(c)
    ensures IndexToChar(Pos(c), Letters) == [c]
  {
    LetterPosition(c);
  }

  /** From a position in range, converting to a letter and looking it up again gives the position back. */
  lemma PositionRoundTrip(i: int)
    requires 0 <= i < |Letters|
    ensures IndexToChar(i, Letters) == [Letters[i]]
    ensures IsLetter(Letters[i]) && Pos(Letters[i]) == i
  {
    LetterAt(i);
  }

  /** Below -26 the single lift is not enough: the result is "a" on a multiple of 26 and empty otherwise. */
  lemma IndexToCharBelowRange(index: int)
    requires index < -|Letters|
    ensures IndexToChar(index, Letters) == if index % 26 == 0 then "a" else ""
  {
  }

  /** The documented examples: 0 gives 'a', 25 gives 'z', 26 wraps to 'a', 40 wraps to 'o'. */
  lemma IndexToCharExamples()
    ensures IndexToChar(0, Letters) == "a"
    ensures IndexToChar(25, Letters) == "z"
    ensures IndexToChar(26, Letters) == "a"
    ensures IndexToChar(40, Letters) == "o"
    ensures IndexToChar(-1, Letters) == "z"
  {
  }
}
