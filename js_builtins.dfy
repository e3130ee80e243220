/**
 * The JavaScript string and number built-ins that the cipher relies on, each
 * stated with the meaning ECMAScript gives it for the arguments the cipher
 * passes. A JavaScript string is a sequence of UTF-16 code units, a Dafny
 * `string` a sequence of Unicode scalar values; the two agree on the ASCII
 * texts and keys the cipher's preconditions admit.
 */
module JsBuiltins {
  import opened ModArith

  /** `s.charAt(i)`: a one-character string inside the bounds, the empty string outside them. */
  function CharAt(s: string, i: int): (r: string)
    ensures |r| <= 1
    ensures |r| == 1 <==> 0 <= i < |s|
    ensures |r| == 1 ==> r[0] == s[i]
  {
    if 0 <= i < |s| then [s[i]] else ""
  }

  /**
   * `a % n` for a positive divisor `n`: JavaScript truncates the quotient
   * toward zero, so the remainder carries the sign of the dividend (unlike
   * Dafny's `%`, whose remainder is never negative).
   */
  function Rem(a: int, n: int): (r: int)
    requires n > 0
    ensures -n < r < n
    ensures (a - r) % n == 0
    ensures a >= 0 ==> r >= 0
    ensures a <= 0 ==> r <= 0
  {
    if a >= 0 then
      ModUnique(a - a % n, n, a / n, 0);
      ModUnique(0, n, 0, 0);
      a % n
    else
      ModUnique(a + (-a) % n, n, -((-a) / n), 0);
      -((-a) % n)
  }

  /** `s.indexOf(c)`: the first position at which `c` occurs in `s`, or -1 when it does not occur. */
  function IndexOf(s: string, c: char): (r: int)
    ensures r == -1 <==> c !in s
    ensures r != -1 ==> 0 <= r < |s| && s[r] == c && c !in s[..r]
  {
    if |s| == 0 then -1
    else if s[0] == c then 0
    else
      var r := IndexOf(s[1..], c);
      if r == -1 then -1 else r + 1
  }

  /** Lower-casing of one character, for the ASCII letters 'A'..'Z' only. */
  function LowerChar(c: char): (r: char)
    ensures 'a' <= r <= 'z' <==> 'a' <= c <= 'z' || 'A' <= c <= 'Z'
    ensures 'A' <= c <= 'Z' ==> r as int - c as int == 'a' as int - 'A' as int
    ensures !('A' <= c <= 'Z') ==> r == c
  {
    if 'A' <= c <= 'Z' then (c as int - 'A' as int + 'a' as int) as char else c
  }

  /** `s.toLowerCase()`, restricted to ASCII case folding: one character at a time, length kept. */
  function ToLowerCase(s: string): (r: string)
    ensures |r| == |s|
    ensures forall i :: 0 <= i < |s| ==> r[i] == LowerChar(s[i])
  {
    if s == [] then [] else [LowerChar(s[0])] + ToLowerCase(s[1..])
  }
}
