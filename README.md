# Simple cipher — a Dafny model

A model of `problems/cipher.js`, a Vigenère cipher over the fixed alphabet
`abcdefghijklmnopqrstuvwxyz`. A `Cipher` object keeps the key it was
built with. `encode` and `decode` stretch that key to the text's length
(`_validateKey`). Then, position by position, they add (encode) or subtract
(decode) the alphabet positions of the text character and of the
lower-cased key character (`_charToAlphaIndex`). The result goes back
through `_indexToChar`, which wraps around the alphabet.

Modules, one per part of the source:

- `JsBuiltins` (`js_builtins.dfy`): the JavaScript built-ins the code relies on,
  each with its ECMAScript meaning. These are `charAt` (empty string out of
  range), `%` (truncating, so the remainder takes the dividend's sign),
  `indexOf` and ASCII `toLowerCase`.
- `Alphabet` (`alphabet.dfy`): the alphabet string and a letter's position in it.
- `AlphaIndex` (`alpha_index.dfy`): `_charToAlphaIndex` as a method with the
  source's loop structure, and `_indexToChar` as a function.
- `KeyStretch` (`key_stretch.dfy`): `_validateKey` as a method. `GrowKey` is the
  key after a number of loop passes, written as the source writes it.
  `Stretch` is the cyclic repetition the loop provably builds.
- `Vigenere` (`vigenere.dfy`): the reference transform, `Encipher` and
  `Decipher`, defined position by position with `out[i] = alphabet[(pos(s[i]) ± pos(lower(key[i mod |key|]))) mod 26]`.
  The module also holds the round-trip lemmas and the documented examples.
- `SimpleCipher` (`cipher.dfy`): the `Cipher` class with its `key` and
  `alphabet`, plus `Encode` and `Decode`. Each is proved equal to the
  reference transform and to be undone by the other direction.
- `ModArith` (`arith.dfy`): helper facts about Dafny's `%`.

Where the code never returns, the model uses preconditions instead:

- `_charToAlphaIndex` never returns for a character outside the alphabet.
  So every text character must be a lower-case letter, and every key
  character must lower-case (ASCII) to one.
- `_validateKey` never returns for an empty key with non-empty text, or for
  a key longer than the text. So the key must be as long as the text, or
  non-empty and shorter. `KeyStretch.GrowKeyNeverFits` proves that the loop
  indeed never stops in those cases.

The stretching loop appends `key.charAt(index)` of the growing key itself at
increasing indices. That builds exactly `key[i mod |key|]` for every
non-empty key, as `KeyStretch.GrowKeyCycles` proves; the loop is a true
cyclic repetition.

## Model

| member | source | states |
|---|---|---|
| `JsBuiltins.CharAt` | problems/cipher.js:173 | `charAt` gives a one-character string holding `s[i]` inside the bounds and the empty string outside them |
| `JsBuiltins.Rem` | problems/cipher.js:171 | JavaScript `%` by a positive divisor gives a remainder strictly between `-n` and `n`, congruent to the dividend modulo `n`, and carrying the dividend's sign |
| `JsBuiltins.LowerChar` | problems/cipher.js:217 | ASCII lower-casing of one character: the result is a lower-case letter exactly when the input is a letter of either case; 'A'..'Z' move to 'a'..'z' and every other character is unchanged |
| `JsBuiltins.IndexOf` | problems/cipher.js:142 | `indexOf` is -1 exactly when the character is absent; otherwise it is a position holding the character, with no earlier occurrence |
| `JsBuiltins.ToLowerCase` | problems/cipher.js:217 | lower-casing keeps the length and maps each character on its own (ASCII only) |
| `Alphabet.Spelled` | problems/cipher.js:122 | the alphabet is exactly "abcdefghijklmnopqrstuvwxyz" |
| `Alphabet.InLetters` | problems/cipher.js:139-145 | a character is found in the alphabet if and only if it is a lower-case letter, so the search stops exactly for those |
| `Alphabet.LetterPosition` | problems/cipher.js:125-131 | a letter's position is in [0,25], the alphabet holds the letter there, and no other position holds it |
| `Alphabet.LetterAt` | problems/cipher.js:149-155 | each position in [0,25] holds a letter whose position is that index |
| `AlphaIndex.CharToAlphaIndex` | problems/cipher.js:136-147 | for a character in the alphabet the search returns its first position; converting that position back with `IndexToChar` gives the character again |
| `AlphaIndex.LookupIsPos` | problems/cipher.js:125-131 | on the cipher's alphabet the position found is the letter's unique position ('a' is 0, 'z' is 25), and `_indexToChar` of it is the letter |
| `AlphaIndex.PositionRoundTrip` | problems/cipher.js:149-155 | for a position in [0,25], `_indexToChar` gives the letter at that position, and looking that letter up gives the position back |
| `AlphaIndex.IndexToChar` | problems/cipher.js:163-174 | for any index ≥ -length, the result is the alphabet letter at the index taken modulo the length, with negatives wrapped around |
| `AlphaIndex.IndexToCharBelowRange` | problems/cipher.js:166-173 | below -26 the single lift is not enough: the result is "a" for a multiple of 26 and empty otherwise |
| `AlphaIndex.IndexToCharExamples` | problems/cipher.js:153-158 | 0 gives "a", 25 gives "z", 26 gives "a", 40 gives "o", -1 gives "z" |
| `KeyStretch.GrowKey` | problems/cipher.js:190-193 | the key after a number of passes of the loop body as written (append `charAt(index)` of the growing key): the original key stays a prefix and each pass adds at most one character |
| `KeyStretch.GrowKeyCycles` | problems/cipher.js:188-193 | after `s` passes of the loop, a non-empty key has grown by exactly `s` characters and holds, at every position `i`, the key character at `i` modulo the key length |
| `KeyStretch.GrowKeyNeverFits` | problems/cipher.js:188-193 | for a key longer than the text, or an empty key with non-empty text, no number of passes brings the key to the text's length |
| `KeyStretch.StretchOwnLength` | problems/cipher.js:187-196 | a key as long as the text stretches to itself |
| `KeyStretch.StretchPrefix` | problems/cipher.js:176-181 | a key no longer than the text is a prefix of its stretch |
| `KeyStretch.StretchExample` | problems/cipher.js:180-181 | "ab" stretched for "sahar" is "ababa" |
| `KeyStretch.ValidateKey` | problems/cipher.js:187-196 | the key returned has the text's length and holds, at position `i`, the key character at `i` modulo the key length; a key already as long as the text comes back unchanged |
| `Vigenere.Shift` | problems/cipher.js:215-220 | one encoding step always yields a letter |
| `Vigenere.Unshift` | problems/cipher.js:246-251 | one decoding step always yields a letter |
| `Vigenere.Encipher` | problems/cipher.js:199-205 | enciphering keeps the text's length and yields only letters |
| `Vigenere.Decipher` | problems/cipher.js:228-236 | deciphering keeps the text's length and yields only letters |
| `Vigenere.ShiftInverse` | problems/cipher.js:219-220 | for one letter and any key letter, subtracting the key position undoes adding it, and adding undoes subtracting |
| `Vigenere.DecipherEncipher` | problems/cipher.js:198-199 | decode undoes encode: deciphering the enciphered text with the same key gives the text back |
| `Vigenere.EncipherDecipher` | problems/cipher.js:228-233 | encode undoes decode: enciphering the deciphered text with the same key gives the text back |
| `Vigenere.IdentityKey` | problems/cipher.js:53-55 | a key of nothing but 'a' (or 'A') leaves every text of letters unchanged |
| `Vigenere.UniformKey` | problems/cipher.js:217 | a key whose characters all lower-case to one letter `k` acts like the one-letter key "k" |
| `Vigenere.ShortKeyExample` | problems/cipher.js:202 | key "bbbb" encodes "abcd" to "bcde" and decodes "bcde" to "abcd" |
| `Vigenere.CaesarEncodeExample` | problems/cipher.js:33 | key "d" encodes "iamapandabear" to "ldpdsdqgdehdu" |
| `Vigenere.CaesarDecodeExample` | problems/cipher.js:35-37 | key "d" decodes "ldpdsdqgdehdu" to "iamapandabear" |
| `Vigenere.RepeatedKeyExamples` | problems/cipher.js:47-56 | "dddd" and "ddddddddddddddddd" encode "iamapandabear" to "ldpdsdqgdehdu"; "aaaaaaaaaaaaaaaaaa" leaves it unchanged, with the longer keys cut to the text's length |
| `SimpleCipher.Cipher.constructor` | problems/cipher.js:120-123 | the object keeps the given key unchanged and the fixed alphabet |
| `SimpleCipher.Cipher.EncodeChar` | problems/cipher.js:212-223 | one encode callback turns a text letter and a key letter into the one-letter string `Shift(c, k)` |
| `SimpleCipher.Cipher.DecodeChar` | problems/cipher.js:243-254 | one decode callback turns a text letter and a key letter into the one-letter string `Unshift(c, k)` |
| `SimpleCipher.Cipher.Encode` | problems/cipher.js:206-226 | `encode` returns `Encipher(text, key)`, and decoding that result with the same key gives the text back |
| `SimpleCipher.Cipher.Decode` | problems/cipher.js:237-257 | `decode` returns `Decipher(text, key)`, and encoding that result with the same key gives the text back |

## Left out

- The exercise description in the file's header comment (problems/cipher.js:1-118) is prose, not logic. Its examples are modelled as lemmas.
- Random key generation when no key is given, and rejection of keys that are not all lower-case letters. Neither exists in the code: the constructor stores its argument as it is, and key validation is only a TODO. Keys are restricted by preconditions instead.
- A missing (`undefined`) key. The code would throw a `TypeError` at `key.length`; the model's key is always a string.
- The paths that never terminate are preconditions, not modelled loops: an unknown character in `_charToAlphaIndex`, and a key that does not fit in `_validateKey`. `KeyStretch.GrowKeyNeverFits` states that the second kind never stops.
- SimpleCipher.Cipher.Encode: does not model full Unicode `toLowerCase`, only ASCII `A`–`Z`. It requires every key character to lower-case to a letter under that rule, because any other key character makes the lookup loop spin.
- SimpleCipher.Cipher.Decode: the same ASCII-only lower-casing restriction as `Encode`.
- `_validateKey` writes its counter to an undeclared global `index`. The model keeps the counter local, so the leak to global state is not modelled.
- `encode` and `decode` collect characters in an array and `join` them. The model appends each one-character string to the result directly, which gives the same string.
- JavaScript strings are sequences of UTF-16 code units, while a Dafny `char` is a Unicode scalar value. Lengths, `charAt` and `split('')` agree on the ASCII texts and keys the preconditions admit. Lone surrogates, and characters outside the Basic Multilingual Plane (which JavaScript counts as two units and `split('')` cuts in half), are not modelled.
- `module.exports` and the prototype wiring (problems/cipher.js:206, 237, 259).

## Findings

| source | as written | input that shows it | evidently intended | confidence | as-written member | corrected member |
|---|---|---|---|---|---|---|
| problems/cipher.js:187-196 | `_validateKey` loops while the key's length differs from the text's, and only ever lengthens the key; a key longer than the text never gets shorter, so `encode` never returns | key "aaaaaaaaaaaaaaaaaa" (18 letters) with text "iamapandabear" (13 letters), the example the file documents at lines 47-48 | the key is cut to the text's length and `encode` returns "iamapandabear" (likewise "ddddddddddddddddd" gives "ldpdsdqgdehdu") | not executed; high (the guard compares lengths for equality and the body only appends) | `KeyStretch.GrowKeyNeverFits` | `Vigenere.RepeatedKeyExamples` |

The reference transform `Vigenere.Encipher` / `Vigenere.Decipher` takes the
key position `i mod |key|` for any non-empty key. That cuts a long key to
the text's length, and all round-trip lemmas hold for such keys. `Cipher.Encode`
and `Cipher.Decode` model the code as written. They require a key that fits
and are proved equal to the reference transform on those inputs.
