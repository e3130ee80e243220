/**
 * The cipher's fixed alphabet, 'a' through 'z', and the position of a letter
 * in it.
 */
module Alphabet {

  /**
   * The alphabet string every cipher object carries, written by its rule:
   * position `i` holds the `i`-th letter after 'a'. `Spelled` shows it is
   * "abcdefghijklmnopqrstuvwxyz".
   */
  const Letters: string := FirstLetters(26)

  /** The first `n` lower-case letters, in order. */
  function FirstLetters(n: nat): string
    requires n <= 26
  {
    seq(n, i requires 0 <= i < n => ('a' as int + i) as char)
  }

  lemma Spelled()
    ensures Letters == "abcdefghijklmnopqrstuvwxyz"
  {
  }

  /** A lower-case Latin letter, the only characters the cipher can look up. */
  predicate IsLetter(c: char)
  {
    'a' <= c <= 'z'
  }

  predicate AllLetters(s: string)
  {
    forall i :: 0 <= i < |s| ==> IsLetter(s[i])
  }

  /** Distance of a character from 'a'; for a letter, its position in the alphabet. */
  function Pos(c: char): int
  {
    c as int - 'a' as int
  }

  /** A character occurs in the alphabet exactly when it is a lower-case letter. */
  lemma InLetters(c: char)
    ensures c in Letters <==> IsLetter(c)
  {
    if IsLetter(c) {
      assert Letters[Pos(c)] == c;
    }
  }

  /**
   * A letter sits at position `Pos(c)` of the alphabet and nowhere else:
   * 'a' at 0, 'b' at 1, ..., 'z' at 25.
   */
  lemma LetterPosition(c: char)
    requires IsLetter(c)
    ensures 0 <= Pos(c) < |Letters| && Letters[Pos(c)] == c
    ensures forall j :: 0 <= j < |Letters| && Letters[j] == c ==> j == Pos(c)
  {
  }

  /** The letter at position `i` is a letter whose position is `i`. */
  lemma LetterAt(i: int)
    requires 0 <= i < |Letters|
    ensures IsLetter(Letters[i]) && Pos(Letters[i]) == i
  {
  }
}
