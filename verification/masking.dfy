/**
  `maskSensitive`: every character that is followed by at least four more
  characters on the same line becomes `*`.  The source writes this as a global
  replace of the regular expression `.(?=.{4})` by `"*"`: a match is one
  character, so the scan tests every position on its own, and the look-ahead
  consumes nothing.
*/
module Masking {
  import opened JsText

  /** The regular expression `.(?=.{4})` matches at position `i` of `s`:
      `s[i]` and the four characters after it exist and none of them is a
      line terminator. */
  predicate MatchesAt(s: string, i: nat) {
    i + 4 < |s| && forall k :: i <= k <= i + 4 ==> !IsLineTerminator(s[k])
  }

  predicate HasLineTerminator(s: string) {
    exists k :: 0 <= k < |s| && IsLineTerminator(s[k])
  }

  /** A run of `n` asterisks. */
  function Stars(n: nat): (r: string)
    ensures |r| == n && forall k :: 0 <= k < n ==> r[k] == '*'
  {
    if n == 0 then "" else "*" + Stars(n - 1)
  }

  /** The left-to-right scan of the global replace, from position `i` on:
      each matching position contributes `*`, every other position its own
      character. */
  function ReplaceFrom(s: string, i: nat): (r: string)
    requires i <= |s|
    ensures |r| == |s| - i
    ensures forall k :: i <= k < |s| ==> r[k - i] == (if MatchesAt(s, k) then '*' else s[k])
    decreases |s| - i
  {
    if i == |s| then ""
    else (if MatchesAt(s, i) then "*" else [s[i]]) + ReplaceFrom(s, i + 1)
  }

  /** `maskSensitive(input)`: length-preserving, and a character becomes `*`
      exactly where the pattern matches; the empty string comes back as is. */
  function MaskSensitive(input: string): (r: string)
    ensures |r| == |input|
    ensures forall k :: 0 <= k < |input| ==> r[k] == (if MatchesAt(input, k) then '*' else input[k])
    ensures input == "" ==> r == input
  {
    if input == "" then input else ReplaceFrom(input, 0)
  }

  /** Strings of at most four characters are returned unchanged, whatever
      they contain. */
  lemma ShortUnchanged(s: string)
    requires |s| <= 4
    ensures MaskSensitive(s) == s
  {
    var r := MaskSensitive(s);
    assert forall k :: 0 <= k < |s| ==> !MatchesAt(s, k);
    assert forall k :: 0 <= k < |s| ==> r[k] == s[k];
  }

  /** On a single line longer than four characters, everything but the last
      four characters becomes `*` and the last four are kept. */
  lemma SingleLineShape(s: string)
    requires !HasLineTerminator(s)
    requires |s| > 4
    ensures MaskSensitive(s) == Stars(|s| - 4) + s[|s| - 4..]
  {
    var r := MaskSensitive(s);
    var e := Stars(|s| - 4) + s[|s| - 4..];
    forall k | 0 <= k < |s|
      ensures r[k] == e[k]
    {
      if k < |s| - 4 {
        assert MatchesAt(s, k);
      } else {
        assert !MatchesAt(s, k);
      }
    }
  }

  /** Line terminators always survive, and so do the last four characters;
      a changed character became `*`. */
  lemma WhatSurvives(s: string, k: nat)
    requires k < |s|
    ensures IsLineTerminator(s[k]) ==> MaskSensitive(s)[k] == s[k]
    ensures k + 4 >= |s| ==> MaskSensitive(s)[k] == s[k]
    ensures MaskSensitive(s)[k] != s[k] ==> MaskSensitive(s)[k] == '*'
  {
  }

  /** The characters that are never masked are exactly the line terminators and
      the ones followed, within four positions, by a line terminator or by the
      end of the string. */
  lemma KeptIffNoMatch(s: string, k: nat)
    requires k < |s|
    requires s[k] != '*'
    ensures MaskSensitive(s)[k] == s[k] <==>
            (k + 4 >= |s| || exists j :: k <= j <= k + 4 && IsLineTerminator(s[j]))
  {
  }

  /** Masking is idempotent: `*` is not a line terminator, so the masked
      string has its line terminators where the input had them and the same
      positions match again. */
  lemma Idempotent(s: string)
    ensures MaskSensitive(MaskSensitive(s)) == MaskSensitive(s)
  {
    var r := MaskSensitive(s);
    var rr := MaskSensitive(r);
    forall k | 0 <= k < |s|
      ensures IsLineTerminator(r[k]) <==> IsLineTerminator(s[k])
    {
    }
    forall k | 0 <= k < |s|
      ensures MatchesAt(r, k) <==> MatchesAt(s, k)
    {
      if k + 4 < |s| {
        assert (forall j :: k <= j <= k + 4 ==> !IsLineTerminator(r[j])) <==>
               (forall j :: k <= j <= k + 4 ==> !IsLineTerminator(s[j]));
      }
    }
    assert forall k :: 0 <= k < |s| ==> rr[k] == r[k];
  }
}
