/**
 * `_validateKey`: growing the key until it is as long as the text. The loop
 * appends, at step `index` (0, 1, 2, ...), the character at `index` of the
 * key grown so far; `GrowKey` gives the key after a number of such steps and
 * `Stretch` is the cyclic repetition it turns out to build.
 */
module KeyStretch {
  import opened JsBuiltins
  import opened ModArith

  /** The key repeated cyclically and cut to length `n`: position `i` holds `key[i mod |key|]`. */
  function Stretch(key: string, n: nat): (r: string)
    requires |key| > 0 || n == 0
  {
    seq(n, i requires 0 <= i < n => key[i % |key|])
  }

  /** The key after `steps` passes of the loop body, as the source writes it (append `charAt(index)`). */
  function GrowKey(key: string, steps: nat): (r: string)
    ensures key <= r && |r| <= |key| + steps
  {
    if steps == 0 then key
    else
      var grown := GrowKey(key, steps - 1);
      grown + CharAt(grown, steps - 1)
  }

  /**
   * Self-concatenation at increasing indices is a cyclic repetition: after
   * `steps` passes a non-empty key has grown by exactly `steps` characters
   * and position `i` holds `key[i mod |key|]`.
   */
  lemma {:induction false} GrowKeyCycles(key: string, steps: nat)
    requires |key| > 0
    ensures |GrowKey(key, steps)| == |key| + steps
    ensures GrowKey(key, steps) == Stretch(key, |key| + steps)
  {
    if steps > 0 {
      GrowKeyCycles(key, steps - 1);
      var grown := GrowKey(key, steps - 1);
      var n := |key| + steps;
      assert CharAt(grown, steps - 1) == [grown[steps - 1]];
      assert grown[steps - 1] == key[(steps - 1) % |key|];
      ModShift(steps - 1, |key|);
      StretchSnoc(key, n - 1);
    }
  }

  /** Stretching one further appends the key character the cycle has reached. */
  lemma StretchSnoc(key: string, n: nat)
    requires |key| > 0
    ensures Stretch(key, n + 1) == Stretch(key, n) + [key[n % |key|]]
  {
  }

  /**
   * The loop never leaves a key that is empty (against non-empty text) or
   * longer than the text: the key only grows, and an empty key stays empty
   * because `charAt` of the empty string is empty.
   */
  lemma {:induction false} GrowKeyNeverFits(key: string, text: string, steps: nat)
    requires |key| > |text| || (|key| == 0 && |text| > 0)
    ensures |GrowKey(key, steps)| != |text|
  {
    GrowKeyBounds(key, steps);
  }

  lemma {:induction false} GrowKeyBounds(key: string, steps: nat)
    ensures |GrowKey(key, steps)| >= |key|
    ensures key == [] ==> GrowKey(key, steps) == []
  {
    if steps > 0 {
      GrowKeyBounds(key, steps - 1);
    }
  }

  /** A key as long as the text stretches to itself. */
  lemma StretchOwnLength(key: string)
    ensures Stretch(key, |key|) == key
  {
    forall i | 0 <= i < |key|
      ensures Stretch(key, |key|)[i] == key[i]
    {
      ModSmall(i, |key|);
    }
  }

  /** A key no longer than the text is a prefix of its stretch. */
  lemma StretchPrefix(key: string, n: nat)
    requires 0 < |key| <= n
    ensures Stretch(key, n)[..|key|] == key
  {
    forall i | 0 <= i < |key|
      ensures Stretch(key, n)[i] == key[i]
    {
      ModSmall(i, |key|);
    }
  }

  /** The documented example: key "ab" against "sahar" becomes "ababa". */
  lemma StretchExample()
    ensures Stretch("ab", |"sahar"|) == "ababa"
  {
  }

  /**
   * `_validateKey(key, stringToConvert)`. The loop only stops once the key
   * reaches the text's length, so the precondition excludes the two cases in
   * which it would run forever (an empty key for a non-empty text, a key
   * longer than the text); `GrowKeyNeverFits` shows that these cases never
   * stop. The source's undeclared global counter `index` is a local here.
   */
  method ValidateKey(key: string, stringToConvert: string) returns (validated: string)
    requires |key| == |stringToConvert| || 0 < |key| < |stringToConvert|
    ensures validated == Stretch(key, |stringToConvert|)
    ensures |key| == |stringToConvert| ==> validated == key
  {
    validated := key;
    if |validated| != |stringToConvert| {
      var index := -1;
      while |validated| != |stringToConvert|
        invariant -1 <= index
        invariant validated == GrowKey(key, index + 1)
        invariant |validated| == |key| + index + 1 <= |stringToConvert|
        decreases |stringToConvert| - |validated|
      {
        index := index + 1;
        validated := validated + CharAt(validated, index);
        GrowKeyCycles(key, index + 1);
      }
      GrowKeyCycles(key, index + 1);
    } else {
      StretchOwnLength(key);
    }
  }
}
