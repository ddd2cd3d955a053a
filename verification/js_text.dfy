/**
  The pieces of JavaScript string semantics the agent relies on: what the
  regular-expression `.` refuses to match, what `String.prototype.trim`
  removes, `includes`, `lastIndexOf`, `split`/`join`, and `Array.prototype.find`.
  A JavaScript string is a sequence of UTF-16 code units; here a string is a
  sequence of Dafny characters, which agrees with JavaScript for text in the
  Basic Multilingual Plane.
*/
module JsText {
  import opened Wrappers

  /** The four LineTerminator code points of ECMAScript: the characters that
      the regular-expression atom `.` does not match without the `s` flag. */
  predicate IsLineTerminator(c: char) {
    c == '\n' || c == '\r' || c == '\U{2028}' || c == '\U{2029}'
  }

  /** ECMAScript WhiteSpace (tab, vertical tab, form feed, space, no-break space,
      byte order mark and the Unicode space separators) or a LineTerminator:
      exactly what `trim()` strips. */
  predicate IsJsWhitespace(c: char) {
    || c == '\t' || c == '\U{000B}' || c == '\U{000C}' || c == ' '
    || c == '\U{00A0}' || c == '\U{FEFF}' || c == '\U{1680}'
    || ('\U{2000}' <= c <= '\U{200A}')
    || c == '\U{202F}' || c == '\U{205F}' || c == '\U{3000}'
    || IsLineTerminator(c)
  }

  /** The number of whitespace characters `trimStart` removes. */
  function LeadingSpace(s: string): (n: nat)
    ensures n <= |s|
    ensures forall i :: 0 <= i < n ==> IsJsWhitespace(s[i])
    ensures n == |s| || !IsJsWhitespace(s[n])
  {
    if |s| > 0 && IsJsWhitespace(s[0]) then 1 + LeadingSpace(s[1..]) else 0
  }

  /** The number of whitespace characters `trimEnd` removes. */
  function TrailingSpace(s: string): (n: nat)
    ensures n <= |s|
    ensures forall i :: |s| - n <= i < |s| ==> IsJsWhitespace(s[i])
    ensures n == |s| || !IsJsWhitespace(s[|s| - n - 1])
  {
    if |s| > 0 && IsJsWhitespace(s[|s| - 1]) then 1 + TrailingSpace(s[..|s| - 1]) else 0
  }

  /** `String.prototype.trim`: the infix left after removing only whitespace
      from both ends, which neither starts nor ends with whitespace. */
  function Trim(s: string): (r: string)
    ensures exists i: nat :: OccursAt(s, r, i)
              && (forall k :: 0 <= k < i ==> IsJsWhitespace(s[k]))
              && (forall k :: i + |r| <= k < |s| ==> IsJsWhitespace(s[k]))
    ensures r == [] || (!IsJsWhitespace(r[0]) && !IsJsWhitespace(r[|r| - 1]))
  {
    var a := LeadingSpace(s);
    var t := s[a..];
    var r := t[..|t| - TrailingSpace(t)];
    assert OccursAt(s, r, a);
    r
  }

  /** A string without whitespace at either end is its own trim. */
  lemma TrimKeeps(s: string)
    requires s == [] || (!IsJsWhitespace(s[0]) && !IsJsWhitespace(s[|s| - 1]))
    ensures Trim(s) == s
  {
    assert LeadingSpace(s) == 0;
    assert TrailingSpace(s) == 0;
    assert s[0..][..|s| - 0] == s;
  }

  /** Trimming twice removes nothing more. */
  lemma TrimIdempotent(s: string)
    ensures Trim(Trim(s)) == Trim(s)
  {
    TrimKeeps(Trim(s));
  }

  /** `s.includes(sub)`. */
  predicate Includes(s: string, sub: string) {
    exists i: nat | i <= |s| :: OccursAt(s, sub, i)
  }

  /** `sub` occurs in `s` starting at position `i`. */
  predicate OccursAt(s: string, sub: string, i: nat) {
    i + |sub| <= |s| && s[i..i + |sub|] == sub
  }

  /** `Array.prototype.find` by index: the first position whose element
      satisfies `p`, if any. */
  function FindIndex<T>(xs: seq<T>, p: T -> bool): (r: Option<nat>)
    ensures r.Some? ==> r.value < |xs| && p(xs[r.value]) && forall j :: 0 <= j < r.value ==> !p(xs[j])
    ensures r.None? <==> forall j :: 0 <= j < |xs| ==> !p(xs[j])
  {
    if |xs| == 0 then None
    else if p(xs[0]) then Some(0)
    else match FindIndex(xs[1..], p)
      case None => None
      case Some(i) => Some(i + 1)
  }

  /** `s.lastIndexOf(c)` for a one-character needle, `None` standing for -1. */
  function LastIndexOf(s: string, c: char): (r: Option<nat>)
    ensures r.Some? ==> r.value < |s| && s[r.value] == c && forall j :: r.value < j < |s| ==> s[j] != c
    ensures r.None? <==> c !in s
  {
    if |s| == 0 then None
    else if s[|s| - 1] == c then Some(|s| - 1)
    else
      assert forall j :: 0 <= j < |s| - 1 ==> s[..|s| - 1][j] == s[j];
      LastIndexOf(s[..|s| - 1], c)
  }

  /** `s.split(sep)` for a one-character separator: the maximal separator-free
      pieces, in order; there is always at least one. */
  function Split(s: string, sep: char): (parts: seq<string>)
    ensures |parts| >= 1
    ensures forall k :: 0 <= k < |parts| ==> sep !in parts[k]
    ensures Join(parts, sep) == s
    decreases |s|
  {
    match FindIndex(s, (c: char) => c == sep)
    case None => [s]
    case Some(i) =>
      var rest := Split(s[i + 1..], sep);
      assert sep !in s[..i];
      var parts := [s[..i]] + rest;
      assert parts[1..] == rest;
      assert s == s[..i] + [sep] + s[i + 1..];
      parts
  }

  /** `parts.join(sep)`. */
  function Join(parts: seq<string>, sep: char): string
    requires |parts| >= 1
  {
    if |parts| == 1 then parts[0] else parts[0] + [sep] + Join(parts[1..], sep)
  }

  /** Joining with a suffix glued onto the last piece is joining and then
      appending the suffix. */
  lemma {:induction false} JoinExtendLast(parts: seq<string>, sep: char, suffix: string)
    requires |parts| >= 1
    ensures Join(parts[..|parts| - 1] + [parts[|parts| - 1] + suffix], sep) == Join(parts, sep) + suffix
    decreases |parts|
  {
    var extended := parts[..|parts| - 1] + [parts[|parts| - 1] + suffix];
    if |parts| > 1 {
      var tail := parts[1..];
      assert extended[1..] == tail[..|tail| - 1] + [tail[|tail| - 1] + suffix];
      JoinExtendLast(tail, sep, suffix);
    }
  }

  /** A character of the class `[a-f0-9]` under the `i` flag. */
  predicate IsHexDigit(c: char) {
    ('0' <= c <= '9') || ('a' <= c <= 'f') || ('A' <= c <= 'F')
  }

  predicate AllHex(s: string) {
    forall i :: 0 <= i < |s| ==> IsHexDigit(s[i])
  }
}
