/**
 * The Vigenère transform the cipher computes, stated position by position:
 * the key is repeated cyclically (and ASCII-lower-cased), and each text
 * letter is moved forward (encipher) or backward (decipher) along the
 * alphabet by the key letter's position, wrapping modulo 26.
 */
module Vigenere {
  import opened JsBuiltins
  import opened Alphabet
  import opened ModArith

  /** One text letter moved forward by the key letter's position. */
  function Shift(c: char, k: char): (r: char)
    ensures IsLetter(r)
  {
    Letters[(Pos(c) + Pos(k)) % 26]
  }

  /** One text letter moved backward by the key letter's position. */
  function Unshift(c: char, k: char): (r: char)
    ensures IsLetter(r)
  {
    Letters[(Pos(c) - Pos(k)) % 26]
  }

  /** The lower-cased key letter that position `i` of a text is combined with. */
  function KeyLetter(key: string, i: nat): char
    requires |key| > 0
  {
    LowerChar(key[i % |key|])
  }

  /**
   * The enciphered text: position `i` is the text letter shifted by the
   * lower-cased key letter at `i mod |key|`. A key longer than the text is
   * cut to the text's length.
   */
  function Encipher(text: string, key: string): (r: string)
    requires |key| > 0 || |text| == 0
    ensures |r| == |text| && AllLetters(r)
  {
    seq(|text|, i requires 0 <= i < |text| => Shift(text[i], KeyLetter(key, i)))
  }

  /** The deciphered text, with the same key positions as `Encipher`. */
  function Decipher(text: string, key: string): (r: string)
    requires |key| > 0 || |text| == 0
    ensures |r| == |text| && AllLetters(r)
  {
    seq(|text|, i requires 0 <= i < |text| => Unshift(text[i], KeyLetter(key, i)))
  }

  /** Enciphering one more character of a text appends that character's shifted letter. */
  lemma EncipherSnoc(text: string, key: string, j: nat)
    requires |key| > 0 && j < |text|
    ensures Encipher(text[..j + 1], key) == Encipher(text[..j], key) + [Shift(text[j], KeyLetter(key, j))]
  {
  }

  /** Deciphering one more character of a text appends that character's unshifted letter. */
  lemma DecipherSnoc(text: string, key: string, j: nat)
    requires |key| > 0 && j < |text|
    ensures Decipher(text[..j + 1], key) == Decipher(text[..j], key) + [Unshift(text[j], KeyLetter(key, j))]
  {
  }

  /** For one letter, moving back undoes moving forward and moving forward undoes moving back. */
  lemma ShiftInverse(c: char, k: char)
    requires IsLetter(c)
    ensures Unshift(Shift(c, k), k) == c
    ensures Shift(Unshift(c, k), k) == c
  {
    var p, d := Pos(c), Pos(k);
    LetterPosition(c);
    var up, down := (p + d) / 26, (p - d) / 26;
    LetterAt((p + d) % 26);
    LetterAt((p - d) % 26);
    ModUnique((p + d) % 26 - d, 26, -up, p);
    ModUnique((p - d) % 26 + d, 26, -down, p);
  }

  /** Deciphering with the key undoes enciphering with it, for every text of letters and every key. */
  lemma {:induction false} DecipherEncipher(text: string, key: string)
    requires |key| > 0 || |text| == 0
    requires AllLetters(text)
    ensures Decipher(Encipher(text, key), key) == text
  {
    var e := Encipher(text, key);
    forall i | 0 <= i < |text|
      ensures Decipher(e, key)[i] == text[i]
    {
      ShiftInverse(text[i], KeyLetter(key, i));
    }
  }

  /** Enciphering with the key undoes deciphering with it. */
  lemma {:induction false} EncipherDecipher(text: string, key: string)
    requires |key| > 0 || |text| == 0
    requires AllLetters(text)
    ensures Encipher(Decipher(text, key), key) == text
  {
    var d := Decipher(text, key);
    forall i | 0 <= i < |text|
      ensures Encipher(d, key)[i] == text[i]
    {
      ShiftInverse(text[i], KeyLetter(key, i));
    }
  }

  /** A key of nothing but 'a' (position 0) leaves every text of letters unchanged. */
  lemma {:induction false} IdentityKey(text: string, key: string)
    requires |key| > 0 && AllLetters(text)
    requires forall j :: 0 <= j < |key| ==> LowerChar(key[j]) == 'a'
    ensures Encipher(text, key) == text
  {
    forall i | 0 <= i < |text|
      ensures Encipher(text, key)[i] == text[i]
    {
      LetterPosition(text[i]);
    }
  }

  /** The documented example for a key as long as the text: "bbbb" moves "abcd" to "bcde" and back. */
  lemma ShortKeyExample()
    ensures Encipher("abcd", "bbbb") == "bcde"
    ensures Decipher("bcde", "bbbb") == "abcd"
  {
  }

  /**
   * Only the lower-cased letters of the key matter: a key whose characters
   * all lower-case to one letter `k` enciphers and deciphers like the key "k".
   */
  lemma {:induction false} UniformKey(text: string, key: string, k: char)
    requires |key| > 0 && IsLetter(k)
    requires forall j :: 0 <= j < |key| ==> LowerChar(key[j]) == k
    ensures Encipher(text, key) == Encipher(text, [k])
    ensures Decipher(text, key) == Decipher(text, [k])
  {
    forall i | 0 <= i < |text|
      ensures KeyLetter(key, i) == KeyLetter([k], i)
    {
      assert i % 1 == 0;
    }
  }

  /** The shift-by-three example: key "d" maps "iamapandabear" to "ldpdsdqgdehdu". */
  lemma CaesarEncodeExample()
    ensures Encipher("iamapandabear", "d") == "ldpdsdqgdehdu"
  {
  }

  /** ... and back. */
  lemma CaesarDecodeExample()
    ensures Decipher("ldpdsdqgdehdu", "d") == "iamapandabear"
  {
  }

  /**
   * The documented examples with repeated keys, "dddd" no longer than the
   * text and "aaaaaaaaaaaaaaaaaa" and "ddddddddddddddddd" longer than it:
   * a long key is cut to the text's length.
   */
  lemma RepeatedKeyExamples()
    ensures Encipher("iamapandabear", "dddd") == "ldpdsdqgdehdu"
    ensures Encipher("iamapandabear", "aaaaaaaaaaaaaaaaaa") == "iamapandabear"
    ensures Encipher("iamapandabear", "ddddddddddddddddd") == "ldpdsdqgdehdu"
  {
    CaesarEncodeExample();
    UniformKey("iamapandabear", "dddd", 'd');
    UniformKey("iamapandabear", "ddddddddddddddddd", 'd');
    IdentityKey("iamapandabear", "aaaaaaaaaaaaaaaaaa");
  }
}
