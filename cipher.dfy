/**
 * The cipher object: it keeps the key it was built with and the alphabet,
 * and encodes or decodes a text one character at a time against the key
 * stretched to the text's length.
 */
module SimpleCipher {
  import opened JsBuiltins
  import opened Alphabet
  import opened AlphaIndex
  import opened KeyStretch
  import opened Vigenere

  /**
   * The key lengths for which the stretching loop stops: exactly the text's
   * length, or non-empty and shorter.
   */
  predicate KeyFits(key: string, text: string)
  {
    |key| == |text| || 0 < |key| < |text|
  }

  /** Every key character lower-cases (ASCII) to a letter the alphabet lookup can find. */
  predicate KeyLetters(key: string)
  {
    forall i :: 0 <= i < |key| ==> IsLetter(LowerChar(key[i]))
  }

  /** One encoding step: the sum of the two positions converts back to the shifted letter. */
  lemma EncodeStep(c: char, k: char)
    requires IsLetter(c) && IsLetter(k)
    ensures IndexToChar(Pos(c) + Pos(k), Letters) == [Shift(c, k)]
  {
  }

  /** One decoding step: the difference of the two positions, lifted once if negative, converts back. */
  lemma DecodeStep(c: char, k: char)
    requires IsLetter(c) && IsLetter(k)
    ensures IndexToChar(Pos(c) - Pos(k), Letters) == [Unshift(c, k)]
  {
  }

  /** The lower-cased stretched key holds, at each position, the key letter `Encipher` and `Decipher` use there. */
  lemma StretchedKeyLetter(key: string, n: nat, j: nat)
    requires |key| > 0 && j < n
    ensures j < |ToLowerCase(Stretch(key, n))|
    ensures ToLowerCase(Stretch(key, n))[j] == KeyLetter(key, j)
  {
  }

  class Cipher {
    /** The key as given, neither checked nor lower-cased at construction. */
    const key: string
    const alphabet: string := Letters

    constructor (input: string)
      ensures key == input && alphabet == Letters
    {
      key := input;
    }

    /**
     * The body of `encode`'s per-character callback: look up the positions
     * of the text character and of the (already lower-cased) key character,
     * add them and convert the sum back to a letter.
     */
    method EncodeChar(c: char, keyChar: char) returns (encodedChar: string)
      requires IsLetter(c) && IsLetter(keyChar)
      ensures encodedChar == [Shift(c, keyChar)]
    {
      InLetters(c);
      InLetters(keyChar);
      var charAlphaIndex := CharToAlphaIndex(c, alphabet);
      var keyCharAlphaIndex := CharToAlphaIndex(keyChar, alphabet);
      LookupIsPos(c, charAlphaIndex);
      LookupIsPos(keyChar, keyCharAlphaIndex);
      var encodedIndex := charAlphaIndex + keyCharAlphaIndex;
      encodedChar := IndexToChar(encodedIndex, alphabet);
      EncodeStep(c, keyChar);
    }

    /** The body of `decode`'s per-character callback: as `EncodeChar`, with the key position subtracted. */
    method DecodeChar(c: char, keyChar: char) returns (decodedChar: string)
      requires IsLetter(c) && IsLetter(keyChar)
      ensures decodedChar == [Unshift(c, keyChar)]
    {
      InLetters(c);
      InLetters(keyChar);
      var charAlphaIndex := CharToAlphaIndex(c, alphabet);
      var keyCharAlphaIndex := CharToAlphaIndex(keyChar, alphabet);
      LookupIsPos(c, charAlphaIndex);
      LookupIsPos(keyChar, keyCharAlphaIndex);
      var decodedIndex := charAlphaIndex as int - keyCharAlphaIndex as int;
      decodedChar := IndexToChar(decodedIndex, alphabet);
      DecodeStep(c, keyChar);
    }

    /**
     * `encode`: stretch the key, then for each text character add its
     * alphabet position to that of the lower-cased key character at the
     * same position and convert the sum back to a letter. The preconditions
     * exclude the inputs on which the source never returns: a text character
     * outside the alphabet, a key character that does not lower-case into
     * it, and a key for which stretching does not stop.
     */
    method Encode(strToEncode: string) returns (encoded: string)
      requires AllLetters(strToEncode)
      requires KeyFits(key, strToEncode) && KeyLetters(key)
      ensures encoded == Encipher(strToEncode, key)
      ensures Decipher(encoded, key) == strToEncode
    {
      encoded := "";
      var stretched := ValidateKey(key, strToEncode);
      for charStrIndex := 0 to |strToEncode|
        invariant encoded == Encipher(strToEncode[..charStrIndex], key)
      {
        StretchedKeyLetter(key, |stretched|, charStrIndex);
        var keyChar := ToLowerCase(stretched)[charStrIndex];
        var encodedChar := EncodeChar(strToEncode[charStrIndex], keyChar);
        EncipherSnoc(strToEncode, key, charStrIndex);
        encoded := encoded + encodedChar;
      }
      assert strToEncode[..|strToEncode|] == strToEncode;
      DecipherEncipher(strToEncode, key);
    }

    /**
     * `decode`: as `Encode`, but the key character's position is
     * subtracted; the difference lies in [-25, 25], where one lift by 26
     * brings it into range.
     */
    method Decode(encodedStr: string) returns (decoded: string)
      requires AllLetters(encodedStr)
      requires KeyFits(key, encodedStr) && KeyLetters(key)
      ensures decoded == Decipher(encodedStr, key)
      ensures Encipher(decoded, key) == encodedStr
    {
      decoded := "";
      var stretched := ValidateKey(key, encodedStr);
      for charStrIndex := 0 to |encodedStr|
        invariant decoded == Decipher(encodedStr[..charStrIndex], key)
      {
        StretchedKeyLetter(key, |stretched|, charStrIndex);
        var keyChar := ToLowerCase(stretched)[charStrIndex];
        var decodedChar := DecodeChar(encodedStr[charStrIndex], keyChar);
        DecipherSnoc(encodedStr, key, charStrIndex);
        decoded := decoded + decodedChar;
      }
      assert encodedStr[..|encodedStr|] == encodedStr;
      EncipherDecipher(encodedStr, key);
    }
  }
}
