/**
 * The placeholder the adapter entry point declares, as it reaches the plugin once
 * TypeScript has dropped its return type and Rollup has bundled it into the
 * `iife` main chunk `spessasynth_lib.js`, and what the whole pipeline then does
 * with it.
 */
module Fixture {
  import opened Wrappers
  import opened Text
  import Utf8
  import opened Patterns
  import opened Injector
  import opened Runtime
  import opened RegExp

  /** The main chunk's file name. */
  const MainChunkFile: string := "spessasynth_lib.js"

  /** The placeholder's body: two comment lines, then it throws, with a message naming the function. */
  const CommentLine: string := "\n    // This placeholder" + " will be replaced" + " by Rollup build"
  const SeparateBuildLine: string :=
    "\n    // In separate build," + " this function exists" + " but should not" + " be called"
  const ThrowLine: string := "\n    throw new "
  const Message: string := "\"" + Name + " is only available" + " in single-file" + " Rollup build\""
  const ThrowCall: string := "(\n        " + Message + "\n    );\n"
  const Comments: string := CommentLine + SeparateBuildLine
  const PlaceholderBody: string := Comments + ThrowLine + Marker + ThrowCall

  /** The placeholder declaration. */
  const Placeholder: string := Opening(FunctionDecl) + PlaceholderBody + "}"

  lemma MainChunkFileIsMain()
    ensures IsMainChunk(MainChunkFile)
  {
    assert HasAt(MainChunkFile, 0, MainChunkMarker);
  }

  lemma MessageHasNoBrace()
    ensures '}' !in Message
  {
    assert '}' !in Name;
    assert '}' !in " is only available";
    assert '}' !in " in single-file";
    assert '}' !in " Rollup build\"";
  }

  lemma ThrowCallHasNoBrace()
    ensures '}' !in ThrowCall
  {
    MessageHasNoBrace();
    assert '}' !in "(\n        " && '}' !in "\n    );\n";
  }

  /** A word put after a text is found right after it. */
  lemma WordAfter(a: string, w: string, b: string)
    ensures HasAt(a + w + b, |a|, w)
  {
    assert (a + w + b)[|a|..|a| + |w|] == w;
  }

  lemma CommentLineHasNoBrace()
    ensures '}' !in CommentLine
  {
    assert '}' !in "\n    // This placeholder" && '}' !in " will be replaced" && '}' !in " by Rollup build";
  }

  lemma SeparateBuildLineHasNoBrace()
    ensures '}' !in SeparateBuildLine
  {
    assert '}' !in "\n    // In separate build," && '}' !in " this function exists";
    assert '}' !in " but should not" && '}' !in " be called";
  }

  lemma CommentsHaveNoBrace()
    ensures '}' !in Comments
  {
    CommentLineHasNoBrace();
    SeparateBuildLineHasNoBrace();
  }

  lemma PlaceholderBodyFacts()
    ensures '}' !in PlaceholderBody && HasAt(PlaceholderBody, |Comments + ThrowLine|, Marker)
  {
    CommentsHaveNoBrace();
    ThrowCallHasNoBrace();
    assert '}' !in ThrowLine && '}' !in Marker;
    WordAfter(Comments + ThrowLine, Marker, ThrowCall);
  }

  /** Regrouping a concatenation of five texts. */
  lemma Regroup(a: string, b: string, c: string, d: string, e: string)
    ensures a + (b + c + d) + e == a + b + c + d + e
  {
  }

  /**
   * The placeholder is replaced, as a whole, by the pattern-1 template, and the code
   * in front of it and after it is kept, provided no pattern-1 match starts in the
   * code in front of it.
   */
  lemma PlaceholderIsReplaced(before: string, rest: string, workletCode: string)
    requires NoMatchBefore(FunctionDecl, before + Placeholder + rest, |before|)
    ensures Transform(before + Placeholder + rest, MainChunkFile, Some(workletCode))
      == Some(before + Template(FunctionDecl, Payload(workletCode)) + rest)
  {
    MainChunkFileIsMain();
    PlaceholderBodyFacts();
    Regroup(before, Opening(FunctionDecl), PlaceholderBody, "}", rest);
    PlaceholderReplacedWhole(before, PlaceholderBody, rest, MainChunkFile, workletCode);
  }

  /**
   * End to end: in the rewritten chunk the new function's literal holds the
   * worklet's base64 text, the intended decoding gives back the worklet exactly,
   * and `atob` as written gives it back exactly when the worklet is ASCII.
   */
  lemma {:induction false} WorkletArrivesIntact(before: string, rest: string, workletCode: string)
    requires NoMatchBefore(FunctionDecl, before + Placeholder + rest, |before|)
    ensures var out := Transform(before + Placeholder + rest, MainChunkFile, Some(workletCode));
      && out.Some?
      && |before| + PayloadOffset(FunctionDecl) < |out.value|
      && match PlainLiteralAt(out.value, |before| + PayloadOffset(FunctionDecl) - 1)
         case None => false
         case Some(literal) =>
           && DecodeWorkletText(literal) == Some(workletCode)
           && (Atob(literal) == Some(workletCode) <==> Utf8.IsAscii(workletCode))
  {
    var payload := Payload(workletCode);
    PlaceholderIsReplaced(before, rest, workletCode);
    EmbeddedLiteral(Transform(before + Placeholder + rest, MainChunkFile, Some(workletCode)).value, FunctionDecl,
      before, payload, rest, |before| + PayloadOffset(FunctionDecl) - 1);
    CorrectedRoundTrip(workletCode);
    AtobRoundTripIffAscii(workletCode);
  }

  const HelloWorld: string := "hello-world"

  /** The `hello-world` worklet is ASCII, so even `atob` hands it over unchanged. */
  lemma HelloWorldScenario(before: string, rest: string)
    requires NoMatchBefore(FunctionDecl, before + Placeholder + rest, |before|)
    ensures var out := Transform(before + Placeholder + rest, MainChunkFile, Some(HelloWorld));
      && out.Some?
      && |before| + PayloadOffset(FunctionDecl) < |out.value|
      && match PlainLiteralAt(out.value, |before| + PayloadOffset(FunctionDecl) - 1)
         case None => false
         case Some(literal) => Atob(literal) == Some(HelloWorld)
  {
    assert Utf8.IsAscii(HelloWorld);
    WorkletArrivesIntact(before, rest, HelloWorld);
  }
}
