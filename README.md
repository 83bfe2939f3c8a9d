# Worklet inlining transform, modelled in Dafny

The RPG Maker MV build of `spessasynth_lib` ships as one self-contained script.
The AudioWorklet processor is bundled first. Its text is then embedded in the main
library by a Rollup plugin, `inject-worklet-code`. The plugin's `renderChunk` hook
(`build_scripts/rollup-plugin-inject-worklet.js`) does the following:

- It ignores every chunk whose file name does not contain `spessasynth_lib`.
- It returns `null` when the worklet bundle file does not exist.
- It base64-encodes the worklet's UTF-8 bytes.
- It tries three regular expressions for the `createWorkletBlobURL` placeholder, in
  order. The first one whose `test` succeeds is used.
- With that expression, `code.replace` swaps the placeholder for a new function. The
  new function holds the base64 text as a string literal. At run time it decodes the
  literal with `atob` and returns a Blob URL for it.
- When no expression matches, it warns, dumps the chunk to a debug file and returns
  `null`.

The Dafny modules follow that structure:

| file | module | what it holds |
|---|---|---|
| `wrappers.dfy` | `Wrappers` | `Option` |
| `text.dfy` | `Text` | ECMAScript `\s`, occurrence and first-occurrence search, `String.prototype.includes` |
| `utf8.dfy` | `Utf8` | UTF-8 encoding (RFC 3629) and a strict decoder, round trip |
| `base64.dfy` | `Base64` | RFC 4648 section 4 encoding and decoding, round trip, output alphabet |
| `patterns.dfy` | `Patterns` | The three expressions: an engine-style matcher `MatchAt`, the language it denotes `InLang`, and the proof that the matcher finds the shortest member |
| `regexp.dfy` | `RegExp` | `RegExp.prototype.test` and `String.prototype.replace` with GetSubstitution (ECMA-262 sections 22.2.7.2 and 22.1.3.19) |
| `injector.dfy` | `Injector` | The templates, the hook as a method `RenderChunk` with its loop, and its specification `Transform` |
| `runtime.dfy` | `Runtime` | What the injected function hands to the Blob: `atob` as written, and the corrected UTF-8 decoding |
| `fixture.dfy` | `Fixture` | The actual placeholder from `src/index_rpgmv.ts`, with its comment lines, run through the whole model |

`None` stands for the hook's `null`. `Some(code)` stands for `{ code, map: null }`.
The worklet bundle is a parameter `worklet: Option<string>`, with `None` when the file
does not exist.

## Model

| member | source | states |
|---|---|---|
| Text.Contains | build_scripts/rollup-plugin-inject-worklet.js:18 | `includes` is true exactly when the word occurs at some position of the file name |
| Utf8.Encode | build_scripts/rollup-plugin-inject-worklet.js:50 | a text of n characters takes between n and 4n bytes |
| Utf8.DecodeEncode | build_scripts/rollup-plugin-inject-worklet.js:50 | decoding the UTF-8 bytes of any text gives the text back |
| Utf8.EncodeLength | build_scripts/rollup-plugin-inject-worklet.js:50 | the bytes are at least as many as the characters; equally many exactly when the text is ASCII, and then each byte is its character's code |
| Base64.CharOf | build_scripts/rollup-plugin-inject-worklet.js:50-52 | every 6-bit value maps into the base64 alphabet |
| Base64.ValueOf | build_scripts/rollup-plugin-inject-worklet.js:50-52 | a character has a 6-bit value exactly when it is in the alphabet |
| Base64.ValueOfCharOf | build_scripts/rollup-plugin-inject-worklet.js:50-52 | the alphabet mapping is inverted by the value mapping |
| Base64.Encode | build_scripts/rollup-plugin-inject-worklet.js:50-52 | the output has length 4·⌈n/3⌉ and is padded base64 text: alphabet characters, then at most two `=` that close it, with nothing but `=` after the first `=` |
| Base64.EncodePadBitsZero | build_scripts/rollup-plugin-inject-worklet.js:50-52 | the bits of the last character that no byte fills are zero (section 3.5 of RFC 4648) |
| Base64.DecodeAcceptsPadded | build_scripts/rollup-plugin-inject-worklet.js:105 | the decoder accepts only padded base64 text, and its length is 4·⌈n/3⌉ for the n bytes it gives |
| Base64.DecodeEncode | build_scripts/rollup-plugin-inject-worklet.js:50-52 | decoding the encoding gives the bytes back, for every byte sequence |
| Base64.EncodeIsLiteralSafe | build_scripts/rollup-plugin-inject-worklet.js:50-52 | the output never holds `"`, `\`, `'` or `$`, so it cannot end or escape the string literal it is put in |
| Injector.Payload | build_scripts/rollup-plugin-inject-worklet.js:50-52 | the embedded text holds no `"`, `\` or `$` |
| Injector.PayloadDecodes | build_scripts/rollup-plugin-inject-worklet.js:50-52 | the embedded text decodes to exactly the worklet's UTF-8 bytes, has length 4·⌈n/3⌉ for n bytes, and is padded base64 text |
| Patterns.MatchAt | build_scripts/rollup-plugin-inject-worklet.js:85-89 | a match at a position is non-empty and ends within the text |
| Patterns.MatchHeadSound | build_scripts/rollup-plugin-inject-worklet.js:85-89 | what the matcher takes for a pattern head is in the head's language |
| Patterns.MatchHeadComplete | build_scripts/rollup-plugin-inject-worklet.js:85-89 | every member of the head's language that stops before a non-space is the one the matcher takes |
| Patterns.MatchTailBounds | build_scripts/rollup-plugin-inject-worklet.js:85-89 | the tail match runs through the first `)`, whitespace, `{`, then the first `Error` after the brace, and ends at the first `}` after that `Error` |
| Patterns.MatchTailLeast | build_scripts/rollup-plugin-inject-worklet.js:85-89 | every member of the tail's language has a tail match that ends no later |
| Patterns.MatchAtIsShortest | build_scripts/rollup-plugin-inject-worklet.js:85-89 | the match found at a position is in the pattern's language and is its shortest member starting there; no match means no member |
| Patterns.ExportMatchContainsFunctionMatch | build_scripts/rollup-plugin-inject-worklet.js:85-87 | every pattern-2 match starts with `export` and whitespace, and pattern 1 matches behind them with the same end |
| Patterns.FunctionMatchStartsWithKeyword | build_scripts/rollup-plugin-inject-worklet.js:85 | a pattern-1 match starts with the keyword `function` |
| RegExp.FirstHit | build_scripts/rollup-plugin-inject-worklet.js:94 | trying positions from left to right, the first one that matches is taken; nothing is taken only when none matches |
| RegExp.Exec | build_scripts/rollup-plugin-inject-worklet.js:94 | the match found is at the first position from which the pattern matches; no match means it matches at no position |
| RegExp.TestIffSomeMatch | build_scripts/rollup-plugin-inject-worklet.js:94 | `test` succeeds exactly when the pattern matches at some position of the chunk |
| RegExp.ExecFindsFirstAt | build_scripts/rollup-plugin-inject-worklet.js:94 | a match at a position before which the pattern matches nowhere is the match `test` and `replace` see |
| RegExp.ExecIsLeftmostShortest | build_scripts/rollup-plugin-inject-worklet.js:94 | `test` and `replace` see the leftmost member of the language and, at that position, its shortest; nothing found means no member anywhere |
| RegExp.GetSubstitution | build_scripts/rollup-plugin-inject-worklet.js:133 | a replacement without `$` is inserted as it is |
| RegExp.Replace | build_scripts/rollup-plugin-inject-worklet.js:133 | without a match the string is unchanged; otherwise only the leftmost match is replaced, with the prefix and suffix kept |
| Injector.PlainLiteralAt | build_scripts/rollup-plugin-inject-worklet.js:104 | a literal read at a quote has no quote and no backslash inside, and it is closed by the next quote |
| Injector.EmbeddedLiteral | build_scripts/rollup-plugin-inject-worklet.js:103-110 | for a payload without `"` or `\`, in any chunk made of code in front, the pattern's replacement and code after it, the string literal `base64Code`, read from the quote just before the payload, holds exactly the payload |
| Injector.RewrittenChunkHoldsPayload | build_scripts/rollup-plugin-inject-worklet.js:103-133 | in the chunk the hook returns, the literal at the chosen pattern's match position holds exactly the payload |
| Injector.OpeningMatchesHead | build_scripts/rollup-plugin-inject-worklet.js:100-130 | each replacement opens with a declaration of the shape its own pattern looks for: the head matches its opening line up to `() {` |
| Injector.TemplateHasNoDollar | build_scripts/rollup-plugin-inject-worklet.js:100-131 | the three replacements hold no `$`, so `replace` inserts them verbatim |
| Injector.SelectPattern | build_scripts/rollup-plugin-inject-worklet.js:92-94 | the pattern used is the first, in the listed order, whose `test` succeeds; there is none exactly when every `test` fails |
| Injector.SelectFrom | build_scripts/rollup-plugin-inject-worklet.js:92-94 | scanning the list from a given index on, the pattern chosen is the first whose `test` succeeds; none is chosen only when every remaining `test` fails |
| Injector.Transform | build_scripts/rollup-plugin-inject-worklet.js:18-40 | `null` for chunks other than the main chunk, and `null` when the bundle is missing |
| Injector.TransformRewrites | build_scripts/rollup-plugin-inject-worklet.js:92-158 | for the main chunk with the bundle present, a result exactly when some pattern tests true; the result is the text before the chosen pattern's leftmost match, that pattern's template, and the text after the match |
| Injector.RenderChunk | build_scripts/rollup-plugin-inject-worklet.js:16-159 | the loop over the patterns returns exactly `Transform`'s result; the chunk is dumped exactly when it is the main chunk, the bundle exists and no pattern matched |
| Injector.RewriteReplacesLeftmostShortest | build_scripts/rollup-plugin-inject-worklet.js:92-133 | the rewrite replaces the leftmost, shortest member of the first pattern's language found in the chunk; no earlier pattern's language occurs anywhere in it |
| Injector.NoRewriteMeansNoPlaceholder | build_scripts/rollup-plugin-inject-worklet.js:144-158 | a main chunk comes back `null`, although the bundle exists, exactly when no pattern's language occurs in it |
| Injector.FirstPatternRewrite | build_scripts/rollup-plugin-inject-worklet.js:101-110 | whenever pattern 1 matches, its template replaces its leftmost match |
| Injector.ExportTestImpliesFunctionTest | build_scripts/rollup-plugin-inject-worklet.js:85-87 | whenever pattern 2 tests true, pattern 1 does too |
| Injector.ExportTemplateNeverChosen | build_scripts/rollup-plugin-inject-worklet.js:111-120 | the `export function` branch is never taken; when pattern 2 matches, pattern 1 is chosen |
| Injector.FunctionMatchInsideExport | build_scripts/rollup-plugin-inject-worklet.js:85-87 | the leftmost pattern-1 match never starts at an `export` match; unless it lies further left, it starts at `function` behind `export` and ends where the pattern-2 match ends |
| Injector.NoFunctionMatchInExport | build_scripts/rollup-plugin-inject-worklet.js:85 | no pattern-1 match starts on `export` or on the whitespace after it |
| Injector.ExportPrefixSurvives | build_scripts/rollup-plugin-inject-worklet.js:101-110 | for an `export function` placeholder, the output keeps `export` and its whitespace in front of the pattern-1 template |
| Injector.DeadBranchAgrees | build_scripts/rollup-plugin-inject-worklet.js:101-120 | with a single space after `export`, the output equals what the unreachable `export function` branch would have produced |
| Injector.RerunStillMatches | build_scripts/rollup-plugin-inject-worklet.js:85 | a chunk that already holds the pattern-1 replacement, with no pattern-1 match starting in the code in front of it, still has its leftmost pattern-1 match at that replacement once later code has `Error` and then `}` |
| Injector.PlaceholderReplacedWhole | build_scripts/rollup-plugin-inject-worklet.js:133 | a `function createWorkletBlobURL() {` placeholder whose body has `Error` and no `}`, after code in which no pattern-1 match starts, is replaced as a whole, with the code in front of it and after it kept |
| Injector.PlaceholderMatch | build_scripts/rollup-plugin-inject-worklet.js:85 | in such a chunk the leftmost pattern-1 match is exactly the placeholder, from `function` to its closing `}` |
| Injector.OpeningThenMarkerMatches | build_scripts/rollup-plugin-inject-worklet.js:85 | text opening with the pattern-1 declaration line, and later holding `Error` and then `}`, matches pattern 1 at its start |
| Injector.DeclarationEnds | build_scripts/rollup-plugin-inject-worklet.js:85 | a pattern-1 match at such a declaration ends at the first `}` after its opening line when `Error` comes before that `}` |
| Runtime.Atob | build_scripts/rollup-plugin-inject-worklet.js:105 | `atob` gives a binary string, every code unit below 256; it accepts only padded base64 text, of length 4·⌈n/3⌉ for a result of n characters |
| Runtime.AtobRoundTripIffAscii | build_scripts/rollup-plugin-inject-worklet.js:105 | as written, the Blob receives the worklet's UTF-8 bytes read one per character; this is the worklet itself exactly when the worklet is ASCII |
| Runtime.Latin1OfUtf8 | build_scripts/rollup-plugin-inject-worklet.js:105 | reading UTF-8 bytes one per character gives the text back exactly when it is ASCII |
| Runtime.AtobGarblesNonAscii | build_scripts/rollup-plugin-inject-worklet.js:105 | a worklet `é` arrives as `Ã©` |
| Runtime.CorrectedRoundTrip | build_scripts/rollup-plugin-inject-worklet.js:105 | base64 decoding followed by UTF-8 decoding gives every worklet back |
| Fixture.PlaceholderIsReplaced | src/index_rpgmv.ts:27-33 | the adapter's placeholder, with its two comment lines, after code in which no pattern-1 match starts and followed by any code, becomes the pattern-1 template with the code in front and after kept |
| Fixture.WorkletArrivesIntact | src/index_rpgmv.ts:27-33 | in the rewritten chunk, the literal decodes to the worklet under the corrected decoding; under `atob` it does so exactly when the worklet is ASCII |
| Fixture.HelloWorldScenario | src/index_rpgmv.ts:27-33 | a `hello-world` worklet comes out of the injected function unchanged |

## Left out

- Console output, `this.warn` and the debug file: the model covers them only through
  `RenderChunk`'s `dumped` flag. `fs`, `path` and `process.cwd()` are not modelled.
  Whether the bundle file exists, and its content, come in as the `worklet` parameter.
- The diagnostic snippet at lines 59-80: it only logs and does not affect the result.
- `readFileSync(..., "utf-8")` replaces invalid UTF-8 with U+FFFD. The model starts
  from the decoded text. JavaScript strings may hold lone surrogates, which `Buffer`
  would encode as U+FFFD; Dafny characters cannot be surrogates, so this case is not
  modelled.
- Positions are counted in code points, while JavaScript counts UTF-16 code units.
  Every character the patterns test for is in the Basic Multilingual Plane. A match
  therefore starts and ends at the same characters either way.
- `atob` is forgiving: it ignores ASCII whitespace and accepts missing padding.
  `Base64.Decode` is strict, and `Runtime.Atob` uses it. The model only ever decodes
  the plugin's own padded output, where both agree.
- Blob, object URLs and `audioWorklet.addModule`: the model stops at the text handed
  to the Blob.
- The bundler, the transpiler and the two orchestrator scripts are not part of this model.
  `Fixture` assumes the placeholder reaches the plugin as a plain function
  declaration with its return type removed, anywhere in the chunk.
- Injector.PlaceholderReplacedWhole, Injector.RerunStillMatches and the `Fixture`
  lemmas take as a hypothesis that no pattern-1 match starts in the code in front of
  the placeholder. Whether the rest of the bundled library meets it is not derived;
  the general case is `Injector.RewriteReplacesLeftmostShortest`.
- The two orchestrators' temporary-directory cleanup and the bundler's own failures
  are not part of this model.

Behaviour of the code that its own comments do not state:

- The header comment says the plugin replaces the placeholder with the actual
  implementation. When no pattern matches, it only warns, dumps the chunk and returns
  `null`, so Rollup keeps the chunk, and the placeholder that throws, unchanged; the
  build goes on (`Injector.NoRewriteMeansNoPlaceholder`).
- The replacement itself still matches pattern 1 as soon as later code contains
  `Error` followed by a `}`, so running the transform again rewrites the chunk again
  instead of leaving it alone (`Injector.RerunStillMatches`).
- The pattern comments present the three patterns as alternatives for different
  output shapes. They overlap: pattern 1 matches inside every pattern-2 match, so the
  `export function` branch is never taken (`Injector.ExportTemplateNeverChosen`).
  This costs nothing, because `export` survives in front of the new function
  (`Injector.ExportPrefixSurvives`, `Injector.DeadBranchAgrees`).

## Findings

| source | as written | input that shows it | evidently intended | confidence | as-written member | corrected member |
|---|---|---|---|---|---|---|
| build_scripts/rollup-plugin-inject-worklet.js:105 | `atob` turns each decoded byte into one character, so the Blob receives the worklet's UTF-8 bytes read as Latin-1 | a worklet containing `é` (bytes C3 A9) arrives as `Ã©` | decode the bytes as UTF-8 (for example with `TextDecoder`), so any worklet arrives unchanged | not executed; proved on the model | Runtime.AtobGarblesNonAscii | Runtime.CorrectedRoundTrip |
