/**
 * The three regular expressions the plugin tries for the `createWorkletBlobURL`
 * placeholder, written out as matchers over strings.
 *
 *   1. function\s+createWorkletBlobURL\s*\([^)]*\)\s*\{[\s\S]*?Error[\s\S]*?\}
 *   2. export\s+function\s+createWorkletBlobURL\s*\([^)]*\)\s*\{[\s\S]*?Error[\s\S]*?\}
 *   3. createWorkletBlobURL\s*:\s*function\s*\([^)]*\)\s*\{[\s\S]*?Error[\s\S]*?\}
 *
 * Each is a fixed head of literals and greedy whitespace runs followed by the same
 * tail. `MatchAt` is what a backtracking engine (section 22.2 of ECMA-262) finds when
 * it starts at a given position; `InLang` is the set of all strings the expression
 * denotes, and `MatchAtIsShortest` proves the engine picks the shortest of them.
 */
module Patterns {
  import opened Wrappers
  import opened Text

  /** The placeholder's name, the anchor shared by all three patterns. */
  const Name: string := "createWorkletBlobURL"

  /** The literal that must occur inside the throwing stub. */
  const Marker: string := "Error"

  /** One element of a pattern's head: a literal, or a greedy `\s` run of at least `min` characters. */
  datatype Step = Lit(text: string) | Ws(min: nat)

  /** The three placeholder shapes, in the order the plugin lists them. */
  datatype Pattern = FunctionDecl | ExportFunctionDecl | ObjectMethod

  /** The part of each pattern in front of the shared `\(` tail. */
  function Head(pat: Pattern): seq<Step> {
    match pat
    case FunctionDecl => [Lit("function"), Ws(1), Lit(Name), Ws(0)]
    case ExportFunctionDecl => [Lit("export"), Ws(1), Lit("function"), Ws(1), Lit(Name), Ws(0)]
    case ObjectMethod => [Lit(Name), Ws(0), Lit(":"), Ws(0), Lit("function"), Ws(0)]
  }

  /**
   * Literals are non-empty and start with a non-whitespace character, and a
   * whitespace run is always followed by a literal (or ends the head, where the
   * tail's `(` follows): so a greedy run can never take what the next step needs.
   */
  predicate WellFormed(steps: seq<Step>) {
    forall i | 0 <= i < |steps| ::
      && (steps[i].Lit? ==> |steps[i].text| > 0 && !IsWs(steps[i].text[0]))
      && (steps[i].Ws? && i + 1 < |steps| ==> steps[i + 1].Lit?)
  }

  lemma HeadWellFormed(pat: Pattern)
    ensures WellFormed(Head(pat))
  {
  }

  /** The engine on a head: literals must be present, each whitespace run is taken greedily. */
  function MatchHead(steps: seq<Step>, s: string, i: nat): (r: Option<nat>)
    requires i <= |s|
    ensures r.Some? ==> i <= r.value <= |s|
    decreases |steps|
  {
    if steps == [] then Some(i)
    else match steps[0]
      case Lit(w) => if HasAt(s, i, w) then MatchHead(steps[1..], s, i + |w|) else None
      case Ws(m) =>
        var k := SkipWs(s, i);
        if k - i >= m then MatchHead(steps[1..], s, k) else None
  }

  /** `s[i..j]` is in the language of the head. */
  ghost predicate HeadLang(steps: seq<Step>, s: string, i: nat, j: nat)
    decreases |steps|
  {
    if steps == [] then i == j
    else match steps[0]
      case Lit(w) => HasAt(s, i, w) && HeadLang(steps[1..], s, i + |w|, j)
      case Ws(m) => exists k | i + m <= k <= j :: AllWsIn(s, i, k) && HeadLang(steps[1..], s, k, j)
  }

  /**
   * `s[i..e]` is in the language of the shared tail `\([^)]*\)\s*\{[\s\S]*?Error[\s\S]*?\}`,
   * split at the closing parenthesis `c`, the opening brace `b` and the marker `k`.
   */
  predicate TailAt(s: string, i: nat, c: nat, b: nat, k: nat, e: nat) {
    && i < c < b < k && k + |Marker| < e <= |s|
    && s[i] == '(' && NoneIn(s, ')', i + 1, c) && s[c] == ')'
    && AllWsIn(s, c + 1, b) && s[b] == '{'
    && HasAt(s, k, Marker) && s[e - 1] == '}'
  }

  ghost predicate TailLang(s: string, i: nat, e: nat) {
    exists c, b, k :: TailAt(s, i, c, b, k, e)
  }

  /** The positions the engine settles on in the tail. */
  datatype TailMatch = TailMatch(close: nat, brace: nat, marker: nat, end: nat)

  /**
   * The engine on the tail: `[^)]*` stops at the first `)`, `\s*` is greedy, and each
   * lazy `[\s\S]*?` takes the shortest run, so the marker is the first `Error` after
   * the brace and the match ends at the first `}` after that marker.
   */
  function MatchTail(s: string, i: nat): (r: Option<TailMatch>)
    requires i <= |s|
    ensures r.Some? ==> i < r.value.end <= |s|
  {
    if i < |s| && s[i] == '(' then
      match IndexOf(s, ')', i + 1)
      case None => None
      case Some(c) =>
        var b := SkipWs(s, c + 1);
        if b < |s| && s[b] == '{' then
          match IndexOfSeq(s, Marker, b + 1)
          case None => None
          case Some(k) =>
            match IndexOf(s, '}', k + |Marker|)
            case None => None
            case Some(r) => Some(TailMatch(c, b, k, r + 1))
        else None
    else None
  }

  /**
   * Where the tail match lies: from `(` through the first `)` (so the argument list
   * holds no `)`), whitespace, `{`, then the first `Error` after the brace, and it
   * ends at the first `}` after that `Error`.
   */
  lemma MatchTailBounds(s: string, i: nat)
    requires i <= |s| && MatchTail(s, i).Some?
    ensures var t := MatchTail(s, i).value;
      && TailAt(s, i, t.close, t.brace, t.marker, t.end)
      && (forall q | t.brace < q < t.marker :: !HasAt(s, q, Marker))
      && NoneIn(s, '}', t.marker + |Marker|, t.end - 1)
  {
  }

  /** The engine on a whole pattern started at `p`: the end of the match, if there is one. */
  function MatchAt(pat: Pattern, s: string, p: nat): (r: Option<nat>)
    requires p <= |s|
    ensures r.Some? ==> p < r.value <= |s|
  {
    match MatchHead(Head(pat), s, p)
    case None => None
    case Some(j) =>
      match MatchTail(s, j)
      case None => None
      case Some(t) => Some(t.end)
  }

  /** A match of the head up to `j` followed by a tail match there is a match of the whole pattern. */
  lemma HeadThenTail(pat: Pattern, s: string, p: nat, j: nat, e: nat)
    requires p <= j <= |s| && MatchHead(Head(pat), s, p) == Some(j)
    requires MatchTail(s, j).Some? && MatchTail(s, j).value.end == e
    ensures MatchAt(pat, s, p) == Some(e)
  {
  }

  /** `s[p..e]` is in the language of the pattern. */
  ghost predicate InLang(pat: Pattern, s: string, p: nat, e: nat) {
    exists j :: HeadLang(Head(pat), s, p, j) && TailLang(s, j, e)
  }

  lemma {:induction false} WellFormedTail(steps: seq<Step>)
    requires WellFormed(steps) && steps != []
    ensures WellFormed(steps[1..])
  {
    forall i | 0 <= i < |steps[1..]|
      ensures steps[1..][i].Lit? ==> |steps[1..][i].text| > 0 && !IsWs(steps[1..][i].text[0])
      ensures steps[1..][i].Ws? && i + 1 < |steps[1..]| ==> steps[1..][i + 1].Lit?
    {
      assert steps[1..][i] == steps[i + 1];
    }
  }

  /** What the engine finds on a head is in the head's language. */
  lemma {:induction false} MatchHeadSound(steps: seq<Step>, s: string, i: nat)
    requires i <= |s| && MatchHead(steps, s, i).Some?
    ensures HeadLang(steps, s, i, MatchHead(steps, s, i).value)
    decreases |steps|
  {
    if steps != [] {
      var j := MatchHead(steps, s, i).value;
      match steps[0]
      case Lit(w) =>
        MatchHeadSound(steps[1..], s, i + |w|);
      case Ws(m) =>
        var k := SkipWs(s, i);
        MatchHeadSound(steps[1..], s, k);
        assert i + m <= k <= j && AllWsIn(s, i, k) && HeadLang(steps[1..], s, k, j);
    }
  }

  /**
   * Conversely, any member of a well-formed head's language that is followed by a
   * non-whitespace character is exactly what the engine finds.
   */
  lemma {:induction false} MatchHeadComplete(steps: seq<Step>, s: string, i: nat, j: nat)
    requires WellFormed(steps) && HeadLang(steps, s, i, j)
    requires i <= j < |s| && !IsWs(s[j])
    ensures MatchHead(steps, s, i) == Some(j)
    decreases |steps|
  {
    if steps != [] {
      WellFormedTail(steps);
      var rest := steps[1..];
      match steps[0]
      case Lit(w) =>
        HeadLangBounds(rest, s, i + |w|, j);
        MatchHeadComplete(rest, s, i + |w|, j);
      case Ws(m) =>
        var k :| i + m <= k <= j && AllWsIn(s, i, k) && HeadLang(rest, s, k, j);
        assert k < |s| && !IsWs(s[k]) by {
          if rest == [] {
            assert k == j;
          } else {
            assert steps[1].Lit?;
            assert HasAt(s, k, rest[0].text);
            assert s[k] == s[k..k + |rest[0].text|][0];
          }
        }
        MaximalRun(s, i, k);
        MatchHeadComplete(rest, s, k, j);
    }
  }

  /** A whitespace run followed by a non-whitespace character is what a greedy `\s*` takes. */
  lemma MaximalRun(s: string, i: nat, k: nat)
    requires i <= k < |s| && AllWsIn(s, i, k) && !IsWs(s[k])
    ensures SkipWs(s, i) == k
  {
  }

  lemma {:induction false} HeadLangBounds(steps: seq<Step>, s: string, i: nat, j: nat)
    requires HeadLang(steps, s, i, j)
    ensures i <= j
    decreases |steps|
  {
    if steps != [] {
      match steps[0]
      case Lit(w) =>
        HeadLangBounds(steps[1..], s, i + |w|, j);
      case Ws(m) =>
        var k :| i + m <= k <= j && AllWsIn(s, i, k) && HeadLang(steps[1..], s, k, j);
    }
  }

  /** Any member of the tail's language ends no earlier than what the engine finds, so the engine finds one. */
  lemma MatchTailLeast(s: string, i: nat, c: nat, b: nat, k: nat, e: nat)
    requires TailAt(s, i, c, b, k, e)
    ensures MatchTail(s, i).Some? && MatchTail(s, i).value.end <= e
  {
    var c' := IndexOf(s, ')', i + 1);
    assert c'.Some? && c'.value == c;
    MaximalRun(s, c + 1, b);
    var k' := IndexOfSeq(s, Marker, b + 1);
    assert k'.Some? && k'.value <= k;
    var r := IndexOf(s, '}', k'.value + |Marker|);
    assert r.Some? && r.value <= e - 1;
  }

  /**
   * The engine, started at `p`, succeeds exactly when some string of the pattern's
   * language starts at `p`, and then returns the shortest one: the regular
   * expression's greedy and lazy choices amount to "shortest match" for these patterns.
   */
  lemma MatchAtIsShortest(pat: Pattern, s: string, p: nat)
    requires p <= |s|
    ensures MatchAt(pat, s, p).Some? ==> InLang(pat, s, p, MatchAt(pat, s, p).value)
    ensures forall e | InLang(pat, s, p, e) :: MatchAt(pat, s, p).Some? && MatchAt(pat, s, p).value <= e
  {
    if MatchAt(pat, s, p).Some? {
      MatchAtSound(pat, s, p);
    }
    forall e | InLang(pat, s, p, e)
      ensures MatchAt(pat, s, p).Some? && MatchAt(pat, s, p).value <= e
    {
      MatchAtLeast(pat, s, p, e);
    }
  }

  lemma MatchAtSound(pat: Pattern, s: string, p: nat)
    requires p <= |s| && MatchAt(pat, s, p).Some?
    ensures InLang(pat, s, p, MatchAt(pat, s, p).value)
  {
    var j := MatchHead(Head(pat), s, p).value;
    var t := MatchTail(s, j).value;
    MatchHeadSound(Head(pat), s, p);
    MatchTailBounds(s, j);
    assert HeadLang(Head(pat), s, p, j) && TailLang(s, j, t.end);
  }

  lemma MatchAtLeast(pat: Pattern, s: string, p: nat, e: nat)
    requires p <= |s| && InLang(pat, s, p, e)
    ensures MatchAt(pat, s, p).Some? && MatchAt(pat, s, p).value <= e
  {
    HeadWellFormed(pat);
    HeadThenTailLeast(Head(pat), s, p, e);
  }

  /** A head member followed by a tail member: the matcher takes a head, and then a tail no longer. */
  lemma HeadThenTailLeast(steps: seq<Step>, s: string, p: nat, e: nat)
    requires p <= |s| && WellFormed(steps)
    requires exists j :: HeadLang(steps, s, p, j) && TailLang(s, j, e)
    ensures MatchHead(steps, s, p).Some?
    ensures var j := MatchHead(steps, s, p).value;
      MatchTail(s, j).Some? && MatchTail(s, j).value.end <= e
  {
    var j: nat :| HeadLang(steps, s, p, j) && TailLang(s, j, e);
    var c: nat, b: nat, k: nat :| TailAt(s, j, c, b, k, e);
    assert j < |s| && s[j] == '(';
    HeadLangBounds(steps, s, p, j);
    MatchHeadComplete(steps, s, p, j);
    MatchTailLeast(s, j, c, b, k, e);
  }

  /**
   * Every match of pattern 2 (`export function …`) contains a match of pattern 1
   * (`function …`): it starts after `export` and the whitespace behind it, and it
   * ends where the pattern-2 match ends.
   */
  lemma ExportMatchContainsFunctionMatch(s: string, p: nat)
    requires p <= |s| && MatchAt(ExportFunctionDecl, s, p).Some?
    ensures HasAt(s, p, "export") && p + 6 < SkipWs(s, p + 6)
    ensures AllWsIn(s, p + 6, SkipWs(s, p + 6))
    ensures MatchAt(FunctionDecl, s, SkipWs(s, p + 6)) == MatchAt(ExportFunctionDecl, s, p)
  {
    var steps := Head(ExportFunctionDecl);
    assert steps[1..][1..] == Head(FunctionDecl);
    var w := SkipWs(s, p + 6);
    assert MatchHead(steps, s, p) == MatchHead(steps[1..], s, p + 6);
    assert MatchHead(steps[1..], s, p + 6) == MatchHead(Head(FunctionDecl), s, w);
  }

  /** A pattern-1 match starts with the keyword `function`. */
  lemma FunctionMatchStartsWithKeyword(s: string, q: nat)
    requires q <= |s| && MatchAt(FunctionDecl, s, q).Some?
    ensures HasAt(s, q, "function") && s[q] == 'f'
  {
    assert MatchHead(Head(FunctionDecl), s, q).Some?;
  }
}
