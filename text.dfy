/**
 * Character classes and scanning helpers shared by the placeholder patterns:
 * ECMAScript's `\s`, literal occurrence, and first-occurrence search.
 * Positions are indices into a string; ranges are half-open `[i, j)`.
 */
module Text {
  import opened Wrappers

  /** ECMAScript `\s` (section 22.2.2.9 of ECMA-262): the WhiteSpace and LineTerminator code points. */
  predicate IsWs(c: char) {
    || c == '\t' || c == '\n' || c == '\U{B}' || c == '\U{C}' || c == '\r' || c == ' '
    || c == '\U{A0}' || c == '\U{1680}' || ('\U{2000}' <= c <= '\U{200A}')
    || c == '\U{2028}' || c == '\U{2029}' || c == '\U{202F}' || c == '\U{205F}'
    || c == '\U{3000}' || c == '\U{FEFF}'
  }

  /** Every character of `s[i..j]` is whitespace. */
  predicate AllWsIn(s: string, i: nat, j: nat) {
    j <= |s| && forall p | i <= p < j :: IsWs(s[p])
  }

  /** No character of `s[i..j]` is `c`. */
  predicate NoneIn(s: string, c: char, i: nat, j: nat) {
    j <= |s| && forall p | i <= p < j :: s[p] != c
  }

  /** The literal `w` occurs in `s` at position `i`. */
  predicate HasAt(s: string, i: nat, w: string) {
    i + |w| <= |s| && s[i..i + |w|] == w
  }

  /** End of the longest whitespace run starting at `i` (a greedy `\s*`). */
  function SkipWs(s: string, i: nat): (j: nat)
    requires i <= |s|
    ensures i <= j <= |s|
    ensures AllWsIn(s, i, j)
    ensures j == |s| || !IsWs(s[j])
    decreases |s| - i
  {
    if i < |s| && IsWs(s[i]) then SkipWs(s, i + 1) else i
  }

  /** Position of the first `c` at or after `from`. */
  function IndexOf(s: string, c: char, from: nat): (r: Option<nat>)
    requires from <= |s|
    ensures r.Some? ==> from <= r.value < |s| && s[r.value] == c && NoneIn(s, c, from, r.value)
    ensures r.None? ==> NoneIn(s, c, from, |s|)
    decreases |s| - from
  {
    if from == |s| then None
    else if s[from] == c then Some(from)
    else IndexOf(s, c, from + 1)
  }

  /** Position of the first occurrence of `w` at or after `from`. */
  function IndexOfSeq(s: string, w: string, from: nat): (r: Option<nat>)
    requires from <= |s|
    ensures r.Some? ==> from <= r.value && HasAt(s, r.value, w)
    ensures r.Some? ==> forall q | from <= q < r.value :: !HasAt(s, q, w)
    ensures r.None? ==> forall q | from <= q <= |s| :: !HasAt(s, q, w)
    decreases |s| - from
  {
    if HasAt(s, from, w) then Some(from)
    else if from == |s| then None
    else IndexOfSeq(s, w, from + 1)
  }

  /** `String.prototype.includes`: `w` occurs somewhere in `s`. */
  function Contains(s: string, w: string): (b: bool)
    ensures b <==> exists k | 0 <= k <= |s| :: HasAt(s, k, w)
  {
    IndexOfSeq(s, w, 0).Some?
  }
}
