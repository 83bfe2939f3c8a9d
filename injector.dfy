/**
 * The `renderChunk` hook of the inject-worklet-code plugin: for the main library
 * chunk, embed the worklet bundle as base64 text in a replacement for the
 * `createWorkletBlobURL` placeholder, chosen by the first of three patterns that
 * matches.
 */
module Injector {
  import opened Wrappers
  import opened Text
  import Utf8
  import Base64
  import opened Patterns
  import opened RegExp

  /** Only a chunk whose file name contains this is processed. */
  const MainChunkMarker: string := "spessasynth_lib"

  /** The patterns in the order the hook tries them. */
  const PatternOrder: seq<Pattern> := [FunctionDecl, ExportFunctionDecl, ObjectMethod]

  /** The chunk filter. */
  predicate IsMainChunk(fileName: string) {
    Contains(fileName, MainChunkMarker)
  }

  /**
   * The embedded text: the worklet bundle's UTF-8 bytes in base64. It holds no
   * character that could end the string literal, start an escape, or be read as a
   * `$` substitution.
   */
  function Payload(workletCode: string): (r: string)
    ensures '"' !in r && '\\' !in r && '$' !in r
  {
    var bytes := Utf8.Encode(workletCode);
    Base64.EncodeIsLiteralSafe(bytes);
    Base64.Encode(bytes)
  }

  /** The payload decodes to exactly the worklet's UTF-8 bytes and has the padded length. */
  lemma PayloadDecodes(workletCode: string)
    ensures Base64.Decode(Payload(workletCode)) == Some(Utf8.Encode(workletCode))
    ensures |Payload(workletCode)| == 4 * ((|Utf8.Encode(workletCode)| + 2) / 3)
    ensures Base64.IsPaddedText(Payload(workletCode))
  {
    Base64.DecodeEncode(Utf8.Encode(workletCode));
  }

  /** The first line of each replacement, matching the shape that was found. */
  function Opening(pat: Pattern): string {
    match pat
    case FunctionDecl => "function " + Name + "() {"
    case ExportFunctionDecl => "export function " + Name + "() {"
    case ObjectMethod => Name + ": function() {"
  }

  /** The text between the opening line and the payload, ending with the literal's opening quote. */
  const LiteralIntro: string := "\n    var base64Code = \""

  /**
   * The rest of the replacement, line by line: close the literal, decode it, wrap
   * it in a Blob and return the Blob's object URL.
   */
  const Quote: string := "\""
  const DecodeLine: string := ";\n    var workletCode = atob(base64Code);"
  const BlobLine: string := "\n    var blob = new Blob([workletCode], {"
  const TypeLine: string := "\n        type: \"application/javascript\""
  const BlobEndLine: string := "\n    });"
  const ReturnLine: string := "\n    return URL.createObjectURL(blob);"
  const EndLine: string := "\n}"
  const Closing: string := Quote + DecodeLine + BlobLine + TypeLine + BlobEndLine + ReturnLine + EndLine

  /** The replacement for a placeholder of the given shape. */
  function Template(pat: Pattern, payload: string): string {
    Opening(pat) + LiteralIntro + payload + Closing
  }

  /** Where the payload starts inside the replacement. */
  function PayloadOffset(pat: Pattern): nat {
    |Opening(pat)| + |LiteralIntro|
  }

  /**
   * The value of the double-quoted JavaScript string literal whose opening quote is
   * at `q`, provided it contains no backslash (so no escape changes its value).
   */
  function PlainLiteralAt(t: string, q: nat): (r: Option<string>)
    requires q < |t|
    ensures r.Some? ==> t[q] == '"' && HasAt(t, q + 1, r.value) && '"' !in r.value && '\\' !in r.value
    ensures r.Some? ==> q + 1 + |r.value| < |t| && t[q + 1 + |r.value|] == '"'
  {
    if t[q] != '"' then None
    else match IndexOf(t, '"', q + 1)
      case None => None
      case Some(close) =>
        var v := t[q + 1..close];
        assert forall i | 0 <= i < |v| :: v[i] == t[q + 1 + i];
        if '\\' in v then None else Some(v)
  }

  /**
   * The replacement holds the payload as one plain string literal: wherever the
   * replacement is put, with any code in front of it and after it, reading the
   * literal that opens just before the payload gives back exactly the payload.
   */
  lemma EmbeddedLiteral(out: string, pat: Pattern, before: string, payload: string, rest: string, q: nat)
    requires q + 1 == |before| + PayloadOffset(pat) && '"' !in payload && '\\' !in payload
    requires out == before + Template(pat, payload) + rest
    ensures q + 1 + |payload| < |out| && PlainLiteralAt(out, q) == Some(payload)
  {
    QuotesAroundPayload();
    RegroupAroundPayload(before, Opening(pat), LiteralIntro, payload, Closing, rest);
    LiteralBetween(out, before + Opening(pat) + LiteralIntro, payload, Closing + rest, q);
  }

  /** The replacement's parts, regrouped around the payload. */
  lemma RegroupAroundPayload(a: string, o: string, intro: string, v: string, closing: string, rest: string)
    requires |intro| > 0
    ensures a + (o + intro + v + closing) + rest == (a + o + intro) + v + (closing + rest)
    ensures (a + o + intro)[|a + o + intro| - 1] == intro[|intro| - 1]
  {
    assert a + (o + intro + v + closing) + rest == (a + o + intro) + v + (closing + rest);
  }

  lemma QuotesAroundPayload()
    ensures |LiteralIntro| > 0 && LiteralIntro[|LiteralIntro| - 1] == '"'
    ensures |Closing| > 0 && Closing[0] == '"'
  {
    assert Closing[0] == Quote[0];
  }

  /** A quote, a text without quotes or backslashes, and a quote: a plain literal holding that text. */
  lemma LiteralBetween(t: string, before: string, v: string, after: string, q: nat)
    requires t == before + v + after && q + 1 == |before| && before[q] == '"'
    requires |after| > 0 && after[0] == '"'
    requires '"' !in v && '\\' !in v
    ensures q + 1 + |v| < |t| && PlainLiteralAt(t, q) == Some(v)
  {
    var o := |before|;
    assert t[q] == '"' && t[o + |v|] == '"';
    assert forall i | o <= i < o + |v| :: t[i] == v[i - o];
    assert IndexOf(t, '"', o) == Some(o + |v|);
    assert t[o..o + |v|] == v;
  }

  lemma DecodeLineHasNoDollar() ensures '$' !in DecodeLine {}
  lemma BlobLineHasNoDollar() ensures '$' !in BlobLine {}
  lemma TypeLineHasNoDollar() ensures '$' !in TypeLine {}
  lemma ReturnLineHasNoDollar() ensures '$' !in ReturnLine {}

  lemma ClosingHasNoDollar()
    ensures '$' !in Closing
  {
    DecodeLineHasNoDollar();
    BlobLineHasNoDollar();
    TypeLineHasNoDollar();
    ReturnLineHasNoDollar();
  }

  lemma OpeningHasNoDollar(pat: Pattern)
    ensures '$' !in Opening(pat)
  {
    assert '$' !in Name;
    match pat
    case FunctionDecl => assert '$' !in "function " && '$' !in "() {";
    case ExportFunctionDecl => assert '$' !in "export function " && '$' !in "() {";
    case ObjectMethod => assert '$' !in ": function() {";
  }

  /** The fixed parts of the replacement hold no `$`, so `replace` inserts it verbatim. */
  lemma TemplateHasNoDollar(pat: Pattern, payload: string)
    requires '$' !in payload
    ensures '$' !in Template(pat, payload)
  {
    ClosingHasNoDollar();
    OpeningHasNoDollar(pat);
    assert '$' !in LiteralIntro;
  }

  /** The index in `PatternOrder`, from `i` on, of the first pattern whose `test` succeeds. */
  function SelectFrom(code: string, i: nat): (r: Option<nat>)
    requires i <= |PatternOrder|
    ensures r.Some? ==> i <= r.value < |PatternOrder| && Test(PatternOrder[r.value], code)
    ensures r.Some? ==> forall j | i <= j < r.value :: !Test(PatternOrder[j], code)
    ensures r.None? ==> forall j | i <= j < |PatternOrder| :: !Test(PatternOrder[j], code)
    decreases |PatternOrder| - i
  {
    if i == |PatternOrder| then None
    else
      var found := Test(PatternOrder[i], code);
      if found then Some(i) else SelectFrom(code, i + 1)
  }

  /**
   * The pattern the hook uses: the first, in order, whose `test` succeeds; none
   * exactly when every `test` fails.
   */
  function SelectPattern(code: string): (r: Option<nat>)
    ensures r.Some? ==> r.value < |PatternOrder| && Test(PatternOrder[r.value], code)
    ensures r.Some? ==> forall j | 0 <= j < r.value :: !Test(PatternOrder[j], code)
    ensures r.None? <==> forall j | 0 <= j < |PatternOrder| :: !Test(PatternOrder[j], code)
  {
    SelectFrom(code, 0)
  }

  /**
   * What the hook returns, `None` standing for `null`: nothing for a chunk other
   * than the main one, and nothing when the worklet bundle is missing.
   */
  function Transform(code: string, fileName: string, worklet: Option<string>): (r: Option<string>)
    ensures !IsMainChunk(fileName) ==> r.None?
    ensures worklet.None? ==> r.None?
  {
    if !IsMainChunk(fileName) || worklet.None? then None
    else match SelectPattern(code)
      case None => None
      case Some(i) =>
        var pat := PatternOrder[i];
        Some(Replace(pat, code, Template(pat, Payload(worklet.value))))
  }

  /**
   * A main chunk, with the worklet bundle present, is rewritten exactly when some
   * pattern matches. The first matching pattern decides both the span replaced
   * (its leftmost match) and the template, and the result is the text before the
   * match, the template, and the text after the match.
   */
  lemma TransformRewrites(code: string, fileName: string, workletCode: string)
    requires IsMainChunk(fileName)
    ensures Transform(code, fileName, Some(workletCode)).Some? <==>
      exists j | 0 <= j < |PatternOrder| :: Test(PatternOrder[j], code)
    ensures Transform(code, fileName, Some(workletCode)).Some? ==>
      && SelectPattern(code).Some?
      && var pat := PatternOrder[SelectPattern(code).value];
         var m := Exec(pat, code).value;
         Transform(code, fileName, Some(workletCode)).value
           == code[..m.start] + Template(pat, Payload(workletCode)) + code[m.end..]
  {
    if SelectPattern(code).Some? {
      var pat := PatternOrder[SelectPattern(code).value];
      TemplateHasNoDollar(pat, Payload(workletCode));
    }
  }
  /** A rewritten chunk is the chunk with the match of the chosen pattern replaced. */
  lemma RewriteIsSplice(code: string, fileName: string, workletCode: string)
    requires IsMainChunk(fileName) && Transform(code, fileName, Some(workletCode)).Some?
    ensures SelectPattern(code).Some?
    ensures var pat := PatternOrder[SelectPattern(code).value];
      var m := Exec(pat, code).value;
      m.end <= |code| && Transform(code, fileName, Some(workletCode)).value
        == code[..m.start] + Template(pat, Payload(workletCode)) + code[m.end..]
  {
    TransformRewrites(code, fileName, workletCode);
  }

  /**
   * In the chunk the hook returns, the string literal of the replacement, put where
   * the replaced match started, holds exactly the payload.
   */
  lemma RewrittenChunkHoldsPayload(code: string, fileName: string, workletCode: string)
    requires IsMainChunk(fileName) && Transform(code, fileName, Some(workletCode)).Some?
    ensures SelectPattern(code).Some?
    ensures var pat := PatternOrder[SelectPattern(code).value];
      var out := Transform(code, fileName, Some(workletCode)).value;
      var q := Exec(pat, code).value.start + PayloadOffset(pat) - 1;
      q < |out| && PlainLiteralAt(out, q) == Some(Payload(workletCode))
  {
    RewriteIsSplice(code, fileName, workletCode);
    var pat := PatternOrder[SelectPattern(code).value];
    var m := Exec(pat, code).value;
    EmbeddedLiteral(Transform(code, fileName, Some(workletCode)).value, pat, code[..m.start], Payload(workletCode), code[m.end..],
      m.start + PayloadOffset(pat) - 1);
  }

  /**
   * The hook. `worklet` is the content of the worklet bundle file, `None` when the
   * file does not exist. `dumped` tells whether the chunk was written to the debug
   * file, which happens exactly when no pattern matched a main chunk.
   */
  method RenderChunk(code: string, fileName: string, worklet: Option<string>)
    returns (result: Option<string>, dumped: bool)
    ensures result == Transform(code, fileName, worklet)
    ensures dumped <==> IsMainChunk(fileName) && worklet.Some? && SelectPattern(code).None?
  {
    if !IsMainChunk(fileName) {
      return None, false;
    }
    if worklet.None? {
      return None, false;
    }
    var payload := Payload(worklet.value);
    var i := 0;
    while i < |PatternOrder|
      invariant 0 <= i <= |PatternOrder|
      invariant forall j | 0 <= j < i :: !Test(PatternOrder[j], code)
    {
      if Test(PatternOrder[i], code) {
        SelectFirst(code, i);
        var replacement;
        if i == 0 {
          replacement := Template(FunctionDecl, payload);
        } else if i == 1 {
          replacement := Template(ExportFunctionDecl, payload);
        } else {
          replacement := Template(ObjectMethod, payload);
        }
        var newCode := Replace(PatternOrder[i], code, replacement);
        return Some(newCode), false;
      }
      i := i + 1;
    }
    return None, true;
  }

  lemma SelectFirst(code: string, i: nat)
    requires i < |PatternOrder| && Test(PatternOrder[i], code)
    requires forall j | 0 <= j < i :: !Test(PatternOrder[j], code)
    ensures SelectPattern(code) == Some(i)
  {
    var r := SelectPattern(code);
    if r.Some? && r.value < i {
      assert false;
    }
  }

  /**
   * What a rewrite replaces, in terms of the patterns' languages: the chosen pattern
   * is the first whose language occurs in the chunk at all, the span replaced is its
   * leftmost occurrence and, among those starting there, the shortest, and the text
   * around it is kept.
   */
  lemma RewriteReplacesLeftmostShortest(code: string, fileName: string, workletCode: string)
    requires Transform(code, fileName, Some(workletCode)).Some?
    ensures var i := SelectPattern(code).value;
      var pat := PatternOrder[i];
      var m := Exec(pat, code).value;
      && m.start < m.end <= |code|
      && InLang(pat, code, m.start, m.end)
      && (forall e | InLang(pat, code, m.start, e) :: m.end <= e)
      && (forall q: nat, e: nat | q < m.start :: !InLang(pat, code, q, e))
      && (forall j, q: nat, e: nat | 0 <= j < i && q <= |code| :: !InLang(PatternOrder[j], code, q, e))
      && Transform(code, fileName, Some(workletCode)).value
         == code[..m.start] + Template(pat, Payload(workletCode)) + code[m.end..]
  {
    TransformRewrites(code, fileName, workletCode);
    var i := SelectPattern(code).value;
    ExecIsLeftmostShortest(PatternOrder[i], code);
    forall j, q: nat, e: nat | 0 <= j < i && q <= |code|
      ensures !InLang(PatternOrder[j], code, q, e)
    {
      ExecIsLeftmostShortest(PatternOrder[j], code);
    }
  }

  /**
   * A main chunk comes back as `null`, although the worklet bundle exists, exactly
   * when no pattern's language occurs anywhere in it.
   */
  lemma NoRewriteMeansNoPlaceholder(code: string, fileName: string, workletCode: string)
    requires IsMainChunk(fileName)
    ensures Transform(code, fileName, Some(workletCode)).None? <==>
      forall j, q: nat, e: nat | 0 <= j < |PatternOrder| && q <= |code| :: !InLang(PatternOrder[j], code, q, e)
  {
    TransformRewrites(code, fileName, workletCode);
    if Transform(code, fileName, Some(workletCode)).None? {
      forall j, q: nat, e: nat | 0 <= j < |PatternOrder| && q <= |code|
        ensures !InLang(PatternOrder[j], code, q, e)
      {
        ExecIsLeftmostShortest(PatternOrder[j], code);
      }
    } else {
      var i := SelectPattern(code).value;
      var m := Exec(PatternOrder[i], code).value;
      ExecIsLeftmostShortest(PatternOrder[i], code);
      assert InLang(PatternOrder[i], code, m.start, m.end);
    }
  }

  /** Whenever pattern 2 matches, so does pattern 1. */
  lemma ExportTestImpliesFunctionTest(s: string)
    ensures Test(ExportFunctionDecl, s) ==> Test(FunctionDecl, s)
  {
    if Test(ExportFunctionDecl, s) {
      var m := Exec(ExportFunctionDecl, s).value;
      ExportMatchContainsFunctionMatch(s, m.start);
    }
  }

  /**
   * The `export function` template is never chosen: whenever pattern 2 matches,
   * pattern 1 is tried first and matches too.
   */
  lemma ExportTemplateNeverChosen(s: string)
    ensures SelectPattern(s) != Some(1)
    ensures Test(ExportFunctionDecl, s) ==> SelectPattern(s) == Some(0)
  {
    ExportTestImpliesFunctionTest(s);
  }

  /**
   * Where pattern 1 matches inside an `export function` declaration: never at the
   * `e` of `export`, and, unless a pattern-1 match lies further left, exactly at the
   * keyword `function` after `export` and its whitespace, ending where the pattern-2
   * match ends.
   */
  lemma FunctionMatchInsideExport(s: string)
    requires Test(ExportFunctionDecl, s)
    ensures Test(FunctionDecl, s)
    ensures var m2 := Exec(ExportFunctionDecl, s).value;
      var m1 := Exec(FunctionDecl, s).value;
      var k := SkipWs(s, m2.start + 6);
      && HasAt(s, m2.start, "export") && m2.start + 6 < k && AllWsIn(s, m2.start + 6, k)
      && m1.start != m2.start && m1.start <= k
      && (m2.start < m1.start ==> m1.start == k && m1.end == m2.end)
  {
    var m2 := Exec(ExportFunctionDecl, s).value;
    ExportMatchContainsFunctionMatch(s, m2.start);
    var k := SkipWs(s, m2.start + 6);
    assert MatchAt(FunctionDecl, s, k) == Some(m2.end);
    ExecStartsNoLaterThan(FunctionDecl, s, k);
    var m1 := Exec(FunctionDecl, s).value;
    if m2.start <= m1.start < k {
      NoFunctionMatchInExport(s, m2.start, k, m1.start);
      assert false;
    }
  }

  /** No pattern-1 match starts on `export` or on the whitespace after it. */
  lemma NoFunctionMatchInExport(s: string, p: nat, k: nat, q: nat)
    requires HasAt(s, p, "export") && AllWsIn(s, p + 6, k)
    requires p <= q < k
    ensures MatchAt(FunctionDecl, s, q).None?
  {
    if q < p + 6 {
      assert s[q] == s[p..p + 6][q - p] == "export"[q - p];
    } else {
      assert IsWs(s[q]);
    }
    assert s[q] != 'f';
    if MatchAt(FunctionDecl, s, q).Some? {
      FunctionMatchStartsWithKeyword(s, q);
    }
  }

  /**
   * The rewritten chunk keeps `export`: when the placeholder is an `export function`
   * declaration and no pattern-1 match lies to its left, pattern 1 replaces the
   * declaration from the keyword `function` on, so the output still has `export`
   * and its whitespace in front of the new function.
   */
  lemma ExportPrefixSurvives(s: string, fileName: string, workletCode: string)
    requires IsMainChunk(fileName) && Test(ExportFunctionDecl, s)
    requires forall q | 0 <= q <= Exec(ExportFunctionDecl, s).value.start :: MatchAt(FunctionDecl, s, q).None?
    ensures var m2 := Exec(ExportFunctionDecl, s).value;
      var k := SkipWs(s, m2.start + 6);
      && HasAt(s, m2.start, "export") && m2.start + 6 < k < m2.end && AllWsIn(s, m2.start + 6, k)
      && Transform(s, fileName, Some(workletCode))
         == Some(s[..k] + Template(FunctionDecl, Payload(workletCode)) + s[m2.end..])
  {
    FunctionMatchInsideExport(s);
    ExportTemplateNeverChosen(s);
    TransformRewrites(s, fileName, workletCode);
  }

  /**
   * The unreachable `export function` branch would have produced the same chunk
   * whenever `export` is followed by a single space: pattern 1's template, put
   * after the surviving `export `, is the pattern-2 template put in place of the
   * whole pattern-2 match.
   */
  lemma DeadBranchAgrees(s: string, fileName: string, workletCode: string)
    requires IsMainChunk(fileName) && Test(ExportFunctionDecl, s)
    requires forall q | 0 <= q <= Exec(ExportFunctionDecl, s).value.start :: MatchAt(FunctionDecl, s, q).None?
    requires var p := Exec(ExportFunctionDecl, s).value.start; p + 7 < |s| && s[p + 6] == ' ' && !IsWs(s[p + 7])
    ensures var m2 := Exec(ExportFunctionDecl, s).value;
      Transform(s, fileName, Some(workletCode))
        == Some(s[..m2.start] + Template(ExportFunctionDecl, Payload(workletCode)) + s[m2.end..])
  {
    ExecWithin(ExportFunctionDecl, s);
    var m2 := Exec(ExportFunctionDecl, s).value;
    ExportSpliceAgrees(s, m2.start, s[m2.end..], Payload(workletCode));
    ExportPrefixSurvives(s, fileName, workletCode);
  }

  /**
   * `export` and a single space, kept in front of pattern 1's template, make up
   * pattern 2's template, whatever code follows.
   */
  lemma ExportSpliceAgrees(s: string, p: nat, rest: string, payload: string)
    requires HasAt(s, p, "export") && p + 7 < |s| && s[p + 6] == ' ' && !IsWs(s[p + 7])
    ensures s[..SkipWs(s, p + 6)] + Template(FunctionDecl, payload) + rest
      == s[..p] + Template(ExportFunctionDecl, payload) + rest
  {
    MaximalRun(s, p + 6, p + 7);
    ExportTemplateIsPrefixed(payload);
    ExportSpaceAt(s, p);
    SpliceAfterPrefix(s, p, "export ", Template(FunctionDecl, payload), rest);
  }

  lemma ExportSpaceAt(s: string, p: nat)
    requires HasAt(s, p, "export") && p + 6 < |s| && s[p + 6] == ' '
    ensures HasAt(s, p, "export ")
  {
    assert s[p..p + 7] == s[p..p + 6] + [s[p + 6]];
  }

  lemma ExportTemplateIsPrefixed(payload: string)
    ensures Template(ExportFunctionDecl, payload) == "export " + Template(FunctionDecl, payload)
  {
    ExportOpeningIsPrefixed();
    PrefixRegroup("export ", Opening(FunctionDecl), Opening(ExportFunctionDecl), LiteralIntro + payload + Closing);
  }

  lemma ExportOpeningIsPrefixed()
    ensures Opening(ExportFunctionDecl) == "export " + Opening(FunctionDecl)
  {
  }

  lemma PrefixRegroup(w: string, o: string, wo: string, tail: string)
    requires wo == w + o
    ensures wo + tail == w + (o + tail)
  {
  }

  lemma SpliceAfterPrefix(s: string, p: nat, w: string, t: string, rest: string)
    requires HasAt(s, p, w)
    ensures s[..p + |w|] + t + rest == s[..p] + (w + t) + rest
  {
    assert s[..p + |w|] == s[..p] + w;
  }

  /**
   * The hook is not idempotent: in a chunk that already holds the pattern-1
   * replacement, with no pattern-1 match in front of it, pattern 1 matches again
   * right at the replacement as soon as some later code contains `Error` followed by
   * a `}`, so a second run rewrites it again instead of failing.
   */
  lemma RerunStillMatches(before: string, payload: string, rest: string, k: nat, r: nat)
    requires NoMatchBefore(FunctionDecl, before + Template(FunctionDecl, payload) + rest, |before|)
    requires HasAt(rest, k, Marker) && k + |Marker| <= r < |rest| && rest[r] == '}'
    ensures var s := before + Template(FunctionDecl, payload) + rest;
      Test(FunctionDecl, s) && Exec(FunctionDecl, s).value.start == |before|
  {
    var t := before + Template(FunctionDecl, payload);
    var s := t + rest;
    OpeningLength();
    HasAtAfter(t, rest, k, Marker);
    CharAfter(t, rest, r);
    TemplateStartsWithOpening(FunctionDecl, before, payload, rest);
    DeclarationFound(s, |before|, |t| + k, |t| + r);
  }

  /** A pattern-1 declaration at `p` with no match in front of it is the match found. */
  lemma DeclarationFound(s: string, p: nat, marker: nat, close: nat)
    requires HasAt(s, p, Opening(FunctionDecl)) && NoMatchBefore(FunctionDecl, s, p)
    requires p + 33 <= marker && HasAt(s, marker, Marker) && marker + |Marker| <= close < |s| && s[close] == '}'
    ensures Test(FunctionDecl, s) && Exec(FunctionDecl, s).value.start == p
  {
    OpeningThenMarkerMatches(s, p, marker, close);
    ExecFindsFirstAt(FunctionDecl, s, p, MatchAt(FunctionDecl, s, p).value);
  }

  lemma TemplateStartsWithOpening(pat: Pattern, before: string, payload: string, rest: string)
    ensures HasAt(before + Template(pat, payload) + rest, |before|, Opening(pat))
    ensures |Opening(pat)| <= |Template(pat, payload)|
  {
    GroupAfterFirst(Opening(pat), LiteralIntro, payload, Closing);
    StartsWithAt(before, Opening(pat), LiteralIntro + payload + Closing, rest);
  }

  lemma GroupAfterFirst(a: string, b: string, c: string, d: string)
    ensures a + b + c + d == a + (b + c + d)
  {
  }

  lemma StartsWithAt(before: string, o: string, x: string, rest: string)
    ensures HasAt(before + (o + x) + rest, |before|, o)
  {
    var s := before + (o + x) + rest;
    assert s[|before|..|before| + |o|] == o;
  }

  lemma OpeningLength()
    ensures |Opening(FunctionDecl)| == 33
  {
  }

  lemma CharAfter(t: string, rest: string, r: nat)
    requires r < |rest|
    ensures |t| + r < |t + rest| && (t + rest)[|t| + r] == rest[r]
  {
  }

  /** A word found in `rest` is found, shifted, in `t + rest`. */
  lemma HasAtAfter(t: string, rest: string, k: nat, w: string)
    requires HasAt(rest, k, w)
    ensures HasAt(t + rest, |t| + k, w)
  {
    assert (t + rest)[|t| + k..|t| + k + |w|] == rest[k..k + |w|];
  }

  /**
   * Text that holds the pattern-1 opening line at `p`, and later `Error` and then
   * `}`, matches pattern 1 at `p`.
   */
  lemma OpeningThenMarkerMatches(s: string, p: nat, marker: nat, close: nat)
    requires HasAt(s, p, Opening(FunctionDecl))
    requires p + 33 <= marker && HasAt(s, marker, Marker) && marker + |Marker| <= close < |s| && s[close] == '}'
    ensures MatchAt(FunctionDecl, s, p).Some?
  {
    FunctionOpeningHeadAt(s, p);
    HeadAndTailMatch(FunctionDecl, s, p, marker, close);
  }

  /** ... and when no `}` comes between the opening line and that `}`, the match ends there. */
  lemma DeclarationEnds(s: string, p: nat, k: nat, close: nat)
    requires HasAt(s, p, Opening(FunctionDecl))
    requires HasAt(s, p + 33 + k, Marker) && p + 33 + k + |Marker| <= close < |s| && s[close] == '}'
    requires NoneIn(s, '}', p + 33, close)
    ensures MatchAt(FunctionDecl, s, p) == Some(close + 1)
  {
    FunctionOpeningHeadAt(s, p);
    HeadAndTailEnd(FunctionDecl, s, p, p + 33 + k, close);
  }

  lemma HeadAndTailMatch(pat: Pattern, s: string, p: nat, marker: nat, close: nat)
    requires p + 29 <= |s| && MatchHead(Head(pat), s, p) == Some(p + 29) && HasAt(s, p + 29, "() {")
    requires p + 33 <= marker && HasAt(s, marker, Marker) && marker + |Marker| <= close < |s| && s[close] == '}'
    ensures MatchAt(pat, s, p).Some?
  {
    FunctionTailAt(s, p, marker, close);
    HeadThenTail(pat, s, p, p + 29, MatchTail(s, p + 29).value.end);
  }

  lemma HeadAndTailEnd(pat: Pattern, s: string, p: nat, marker: nat, close: nat)
    requires p + 29 <= |s| && MatchHead(Head(pat), s, p) == Some(p + 29) && HasAt(s, p + 29, "() {")
    requires p + 33 <= marker && HasAt(s, marker, Marker) && marker + |Marker| <= close < |s| && s[close] == '}'
    requires NoneIn(s, '}', p + 33, close)
    ensures MatchAt(pat, s, p) == Some(close + 1)
  {
    FunctionTailEnd(s, p, marker, close);
    HeadThenTail(pat, s, p, p + 29, close + 1);
  }

  lemma OpeningFacts()
    ensures var o := Opening(FunctionDecl);
      && |o| == 33 && o[8] == ' '
      && HasAt(o, 0, "function") && HasAt(o, 9, Name) && HasAt(o, 29, "() {")
  {
    var o := Opening(FunctionDecl);
    assert o[..8] == "function";
    assert o[9..29] == Name;
    assert o[29..33] == "() {";
  }

  lemma ExportOpeningFacts()
    ensures var o := Opening(ExportFunctionDecl);
      && |o| == 40 && o[6] == ' ' && o[15] == ' '
      && HasAt(o, 0, "export") && HasAt(o, 7, "function") && HasAt(o, 16, Name) && HasAt(o, 36, "() {")
  {
    var o := Opening(ExportFunctionDecl);
    assert o[..6] == "export";
    assert o[7..15] == "function";
    assert o[16..36] == Name;
    assert o[36..40] == "() {";
  }

  lemma ObjectOpeningFacts()
    ensures var o := Opening(ObjectMethod);
      && |o| == 34 && o[20] == ':' && o[21] == ' '
      && HasAt(o, 0, Name) && HasAt(o, 22, "function") && HasAt(o, 30, "() {")
  {
    var o := Opening(ObjectMethod);
    var tail := ": function() {";
    assert o == Name + tail && |Name| == 20;
    assert o[..20] == Name;
    assert o[22..30] == tail[2..10] == "function";
    assert o[30..34] == tail[10..14] == "() {";
  }

  /** A word found inside a word found in `s` is found in `s`. */
  lemma HasAtWithin(s: string, i: nat, w: string, j: nat, v: string)
    requires HasAt(s, i, w) && HasAt(w, j, v)
    ensures HasAt(s, i + j, v)
  {
    forall m | 0 <= m < |v|
      ensures s[i + j + m] == v[m]
    {
      assert s[i..i + |w|][j + m] == w[j + m];
      assert w[j..j + |v|][m] == v[m];
    }
    assert s[i + j..i + j + |v|] == v;
  }

  /** The character at offset `j` of a word found in `s`. */
  lemma CharWithin(s: string, i: nat, w: string, j: nat)
    requires HasAt(s, i, w) && j < |w|
    ensures s[i + j] == w[j]
  {
    assert s[i..i + |w|][j] == w[j];
  }

  /** Pattern 1's head, `function\s+createWorkletBlobURL\s*`, matches a single-space declaration. */
  lemma FunctionHeadAt(s: string, p: nat)
    requires HasAt(s, p, "function") && p + 8 < |s| && s[p + 8] == ' '
    requires HasAt(s, p + 9, Name) && HasAt(s, p + 29, "() {")
    ensures MatchHead(Head(FunctionDecl), s, p) == Some(p + 29)
  {
    CharWithin(s, p + 9, Name, 0);
    CharWithin(s, p + 29, "() {", 0);
    MaximalRun(s, p + 8, p + 9);
    MaximalRun(s, p + 29, p + 29);
    var head := Head(FunctionDecl);
    assert MatchHead(head[3..], s, p + 29) == Some(p + 29);
    assert MatchHead(head[2..], s, p + 9) == Some(p + 29);
    assert MatchHead(head[1..], s, p + 8) == Some(p + 29);
  }

  /** Pattern 2's head, `export\s+function\s+createWorkletBlobURL\s*`, on a single-space declaration. */
  lemma ExportHeadAt(s: string, p: nat)
    requires HasAt(s, p, "export") && p + 15 < |s| && s[p + 6] == ' ' && s[p + 15] == ' '
    requires HasAt(s, p + 7, "function") && HasAt(s, p + 16, Name) && HasAt(s, p + 36, "() {")
    ensures MatchHead(Head(ExportFunctionDecl), s, p) == Some(p + 36)
  {
    CharWithin(s, p + 7, "function", 0);
    CharWithin(s, p + 16, Name, 0);
    CharWithin(s, p + 36, "() {", 0);
    MaximalRun(s, p + 6, p + 7);
    MaximalRun(s, p + 15, p + 16);
    MaximalRun(s, p + 36, p + 36);
    var head := Head(ExportFunctionDecl);
    assert MatchHead(head[5..], s, p + 36) == Some(p + 36);
    assert MatchHead(head[4..], s, p + 16) == Some(p + 36);
    assert MatchHead(head[3..], s, p + 15) == Some(p + 36);
    assert MatchHead(head[2..], s, p + 7) == Some(p + 36);
    assert MatchHead(head[1..], s, p + 6) == Some(p + 36);
  }

  /** Pattern 3's head, `createWorkletBlobURL\s*:\s*function\s*`, on `createWorkletBlobURL: function`. */
  lemma ObjectHeadAt(s: string, p: nat)
    requires HasAt(s, p, Name) && p + 21 < |s| && s[p + 20] == ':' && s[p + 21] == ' '
    requires HasAt(s, p + 22, "function") && HasAt(s, p + 30, "() {")
    ensures MatchHead(Head(ObjectMethod), s, p) == Some(p + 30)
  {
    CharWithin(s, p + 22, "function", 0);
    CharWithin(s, p + 30, "() {", 0);
    assert HasAt(s, p + 20, ":") by {
      assert s[p + 20..p + 21] == [s[p + 20]];
    }
    MaximalRun(s, p + 20, p + 20);
    MaximalRun(s, p + 21, p + 22);
    MaximalRun(s, p + 30, p + 30);
    var head := Head(ObjectMethod);
    assert MatchHead(head[5..], s, p + 30) == Some(p + 30);
    assert MatchHead(head[4..], s, p + 22) == Some(p + 30);
    assert MatchHead(head[3..], s, p + 21) == Some(p + 30);
    assert MatchHead(head[2..], s, p + 20) == Some(p + 30);
    assert MatchHead(head[1..], s, p + 20) == Some(p + 30);
  }

  /**
   * Each replacement opens with a declaration of the shape its pattern looks for:
   * the pattern's head matches the opening line up to its `(`, wherever the
   * replacement is put.
   */
  lemma OpeningMatchesHead(pat: Pattern, before: string, payload: string, rest: string)
    ensures var s := before + Template(pat, payload) + rest;
      && |before| + |Opening(pat)| <= |s|
      && MatchHead(Head(pat), s, |before|) == Some(|before| + |Opening(pat)| - 4)
      && HasAt(s, |before| + |Opening(pat)| - 4, "() {")
  {
    TemplateStartsWithOpening(pat, before, payload, rest);
    OpeningHeadAt(pat, before + Template(pat, payload) + rest, |before|);
  }

  lemma OpeningHeadAt(pat: Pattern, s: string, p: nat)
    requires HasAt(s, p, Opening(pat))
    ensures |Opening(pat)| >= 4
    ensures MatchHead(Head(pat), s, p) == Some(p + |Opening(pat)| - 4)
    ensures HasAt(s, p + |Opening(pat)| - 4, "() {")
  {
    match pat
    case FunctionDecl =>
      OpeningFacts();
      FunctionOpeningHeadAt(s, p);
      assert p + |Opening(pat)| - 4 == p + 29;
    case ExportFunctionDecl =>
      ExportOpeningFacts();
      ExportOpeningHeadAt(s, p);
      assert p + |Opening(pat)| - 4 == p + 36;
    case ObjectMethod =>
      ObjectOpeningFacts();
      ObjectOpeningHeadAt(s, p);
      assert p + |Opening(pat)| - 4 == p + 30;
  }

  lemma FunctionOpeningHeadAt(s: string, p: nat)
    requires HasAt(s, p, Opening(FunctionDecl))
    ensures MatchHead(Head(FunctionDecl), s, p) == Some(p + 29) && HasAt(s, p + 29, "() {")
  {
    var o := Opening(FunctionDecl);
    OpeningFacts();
    HasAtWithin(s, p, o, 0, "function");
    HasAtWithin(s, p, o, 9, Name);
    HasAtWithin(s, p, o, 29, "() {");
    CharWithin(s, p, o, 8);
    FunctionHeadAt(s, p);
  }

  lemma ExportOpeningHeadAt(s: string, p: nat)
    requires HasAt(s, p, Opening(ExportFunctionDecl))
    ensures MatchHead(Head(ExportFunctionDecl), s, p) == Some(p + 36) && HasAt(s, p + 36, "() {")
  {
    var o := Opening(ExportFunctionDecl);
    ExportOpeningFacts();
    HasAtWithin(s, p, o, 0, "export");
    HasAtWithin(s, p, o, 7, "function");
    HasAtWithin(s, p, o, 16, Name);
    HasAtWithin(s, p, o, 36, "() {");
    CharWithin(s, p, o, 6);
    CharWithin(s, p, o, 15);
    ExportHeadAt(s, p);
  }

  lemma ObjectOpeningHeadAt(s: string, p: nat)
    requires HasAt(s, p, Opening(ObjectMethod))
    ensures MatchHead(Head(ObjectMethod), s, p) == Some(p + 30) && HasAt(s, p + 30, "() {")
  {
    var o := Opening(ObjectMethod);
    ObjectOpeningFacts();
    HasAtWithin(s, p, o, 0, Name);
    HasAtWithin(s, p, o, 22, "function");
    HasAtWithin(s, p, o, 30, "() {");
    CharWithin(s, p, o, 20);
    CharWithin(s, p, o, 21);
    ObjectHeadAt(s, p);
  }

  /** After `() {` at `p + 29`, an `Error` and a later `}` are all the tail of a pattern needs. */
  lemma FunctionTailAt(s: string, p: nat, marker: nat, close: nat)
    requires HasAt(s, p + 29, "() {")
    requires p + 33 <= marker && HasAt(s, marker, Marker) && marker + |Marker| <= close < |s| && s[close] == '}'
    ensures MatchTail(s, p + 29).Some?
    ensures NoneIn(s, '}', p + 33, close) ==> MatchTail(s, p + 29).value.end == close + 1
  {
    var a := p + 29;
    assert s[a] == '(' && s[a + 1] == ')' && s[a + 2] == ' ' && s[a + 3] == '{' by {
      assert s[a..a + 4][0] == '(' && s[a..a + 4][1] == ')' && s[a..a + 4][2] == ' ' && s[a..a + 4][3] == '{';
    }
    assert IndexOf(s, ')', a + 1) == Some(a + 1);
    MaximalRun(s, a + 2, a + 3);
    var found := IndexOfSeq(s, Marker, p + 33);
    assert found.Some? && found.value <= marker;
    assert IndexOf(s, '}', found.value + |Marker|).Some?;
  }
  lemma FunctionTailEnd(s: string, p: nat, marker: nat, close: nat)
    requires HasAt(s, p + 29, "() {")
    requires p + 33 <= marker && HasAt(s, marker, Marker) && marker + |Marker| <= close < |s| && s[close] == '}'
    requires NoneIn(s, '}', p + 33, close)
    ensures MatchTail(s, p + 29).Some? && MatchTail(s, p + 29).value.end == close + 1
  {
    FunctionTailAt(s, p, marker, close);
  }


  /**
   * A placeholder declared as `function createWorkletBlobURL() {`, whose body
   * mentions `Error` and holds no `}`, is replaced as a whole by the pattern-1
   * template, with the code in front of it and after it kept, provided no
   * pattern-1 match starts in the code in front of it.
   */
  lemma PlaceholderReplacedWhole(before: string, body: string, rest: string, fileName: string, workletCode: string)
    requires IsMainChunk(fileName)
    requires '}' !in body && exists k | 0 <= k <= |body| :: HasAt(body, k, Marker)
    requires NoMatchBefore(FunctionDecl, before + Opening(FunctionDecl) + body + "}" + rest, |before|)
    ensures Transform(before + Opening(FunctionDecl) + body + "}" + rest, fileName, Some(workletCode))
      == Some(before + Template(FunctionDecl, Payload(workletCode)) + rest)
  {
    var s := before + Opening(FunctionDecl) + body + "}" + rest;
    var k :| 0 <= k <= |body| && HasAt(body, k, Marker);
    PlaceholderMatch(s, before, body, rest, k);
    OpeningFacts();
    var n := |before| + |Opening(FunctionDecl)| + |body| + 1;
    assert s[..|before|] == before;
    assert s[n..] == rest;
    SpliceRewrite(s, |before|, n, before, rest, fileName, workletCode);
  }

  /** When the leftmost pattern-1 match is `s[p..n]`, the template takes its place. */
  lemma SpliceRewrite(s: string, p: nat, n: nat, before: string, rest: string, fileName: string, workletCode: string)
    requires IsMainChunk(fileName) && Test(FunctionDecl, s)
    requires Exec(FunctionDecl, s).value == Span(p, n)
    requires p <= n <= |s| && s[..p] == before && s[n..] == rest
    ensures Transform(s, fileName, Some(workletCode)) == Some(before + Template(FunctionDecl, Payload(workletCode)) + rest)
  {
    FirstPatternRewrite(s, fileName, workletCode);
  }

  /** When pattern 1 matches, its template replaces its leftmost match. */
  lemma FirstPatternRewrite(code: string, fileName: string, workletCode: string)
    requires IsMainChunk(fileName) && Test(FunctionDecl, code)
    ensures var m := Exec(FunctionDecl, code).value;
      Transform(code, fileName, Some(workletCode))
        == Some(code[..m.start] + Template(FunctionDecl, Payload(workletCode)) + code[m.end..])
  {
    assert PatternOrder[0] == FunctionDecl;
    assert SelectPattern(code) == Some(0);
    TransformRewrites(code, fileName, workletCode);
  }

  /**
   * In such a chunk the leftmost pattern-1 match is exactly the placeholder: it
   * starts at the placeholder's `function` and ends at its closing `}`.
   */
  lemma PlaceholderMatch(s: string, before: string, body: string, rest: string, k: nat)
    requires s == before + Opening(FunctionDecl) + body + "}" + rest
    requires '}' !in body && k <= |body| && HasAt(body, k, Marker)
    requires NoMatchBefore(FunctionDecl, s, |before|)
    ensures Test(FunctionDecl, s) && Exec(FunctionDecl, s) == Some(Span(|before|, |before| + |Opening(FunctionDecl)| + |body| + 1))
  {
    OpeningFacts();
    PlaceholderLayout(before, Opening(FunctionDecl), body, rest, k);
    var close := |before| + |Opening(FunctionDecl)| + |body|;
    DeclarationMatch(s, |before|, k, close);
    assert Span(|before|, close + 1) == Span(|before|, |before| + |Opening(FunctionDecl)| + |body| + 1);
  }

  /**
   * A pattern-1 declaration at `p` whose first `}` after the opening line is at
   * `close`, with `Error` in between and no match in front, is the match found.
   */
  lemma DeclarationMatch(s: string, p: nat, k: nat, close: nat)
    requires HasAt(s, p, Opening(FunctionDecl)) && NoMatchBefore(FunctionDecl, s, p)
    requires HasAt(s, p + 33 + k, Marker) && p + 33 + k + |Marker| <= close < |s| && s[close] == '}'
    requires NoneIn(s, '}', p + 33, close)
    ensures Test(FunctionDecl, s) && Exec(FunctionDecl, s) == Some(Span(p, close + 1))
  {
    DeclarationEnds(s, p, k, close);
    ExecFindsFirstAt(FunctionDecl, s, p, close + 1);
  }



  /** Where the parts of `before + o + body + "}" + rest` lie. */
  lemma PlaceholderLayout(before: string, o: string, body: string, rest: string, k: nat)
    requires '}' !in body && k <= |body| && HasAt(body, k, Marker)
    ensures var s := before + o + body + "}" + rest;
      var close := |before| + |o| + |body|;
      && close < |s| && s[close] == '}'
      && HasAt(s, |before|, o)
      && HasAt(s, |before| + |o| + k, Marker)
      && NoneIn(s, '}', |before| + |o|, close)
  {
    var s := before + o + body + "}" + rest;
    var p := |before|;
    assert s[p..p + |o|] == o;
    HasAtAfter(before + o, body + "}" + rest, k, Marker);
    assert (before + o) + (body + "}" + rest) == s;
    var close := p + |o| + |body|;
    assert forall q | p + |o| <= q < close :: s[q] == body[q - p - |o|];
  }
}
