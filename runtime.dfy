/**
 * What the injected `createWorkletBlobURL` does with the embedded literal when it
 * runs in the browser: `atob(base64Code)` becomes the text of the Blob, which the
 * browser stores as UTF-8 and later loads as the worklet module.
 */
module Runtime {
  import opened Wrappers
  import Utf8
  import Base64
  import Injector

  /**
   * The "binary string" `atob` returns: one character per decoded byte, whose code
   * is the byte's value (ISO-8859-1).
   */
  function Latin1(bytes: seq<Utf8.byte>): (r: string)
    ensures |r| == |bytes|
    ensures forall i | 0 <= i < |r| :: r[i] as int == bytes[i]
  {
    seq(|bytes|, i requires 0 <= i < |bytes| => bytes[i] as char)
  }

  /**
   * `atob(literal)`: `None` where `atob` throws on text that is not base64. What it
   * returns is a binary string, one code unit below 256 per byte, three for every
   * group of four characters of the literal.
   */
  function Atob(literal: string): (r: Option<string>)
    ensures r.Some? ==> Base64.IsPaddedText(literal) && |literal| == 4 * ((|r.value| + 2) / 3)
    ensures r.Some? ==> forall i | 0 <= i < |r.value| :: r.value[i] as int < 256
  {
    match Base64.Decode(literal)
    case None => None
    case Some(bytes) =>
      Base64.DecodeAcceptsPadded(literal);
      Some(Latin1(bytes))
  }

  /**
   * The injected function as written: the text it hands to the Blob is the
   * worklet's UTF-8 bytes read back one byte per character, and that gives back
   * the worklet's own text exactly when the worklet is pure ASCII.
   */
  lemma {:induction false} AtobRoundTripIffAscii(workletCode: string)
    ensures Atob(Injector.Payload(workletCode)) == Some(Latin1(Utf8.Encode(workletCode)))
    ensures Atob(Injector.Payload(workletCode)) == Some(workletCode) <==> Utf8.IsAscii(workletCode)
  {
    Injector.PayloadDecodes(workletCode);
    Latin1OfUtf8(workletCode);
  }

  lemma {:induction false} Latin1OfUtf8(s: string)
    ensures Latin1(Utf8.Encode(s)) == s <==> Utf8.IsAscii(s)
  {
    var text := Latin1(Utf8.Encode(s));
    Utf8.EncodeLength(s);
    if Utf8.IsAscii(s) {
      assert forall i | 0 <= i < |text| :: text[i] == s[i];
    }
  }

  /** A worklet consisting of `é` comes back as the two characters `Ã` and `©`. */
  lemma AtobGarblesNonAscii(workletCode: string)
    requires workletCode == "\U{E9}"
    ensures Atob(Injector.Payload(workletCode)) == Some("\U{C3}\U{A9}")
  {
    AtobRoundTripIffAscii(workletCode);
    assert Utf8.Encode(workletCode) == [0xC3, 0xA9] by {
      assert workletCode[0] == '\U{E9}' && workletCode[1..] == [];
      assert Utf8.EncodeChar('\U{E9}') == [0xC3, 0xA9];
    }
    assert Latin1([0xC3, 0xA9]) == "\U{C3}\U{A9}";
  }

  /**
   * The evidently intended decoding: base64 to bytes, then the bytes as UTF-8 text
   * (what `new TextDecoder().decode(...)` over the bytes of `atob`'s result gives).
   */
  function DecodeWorkletText(literal: string): Option<string> {
    match Base64.Decode(literal)
    case None => None
    case Some(bytes) => Utf8.Decode(bytes)
  }

  /** With that decoding every worklet, ASCII or not, arrives unchanged. */
  lemma {:induction false} CorrectedRoundTrip(workletCode: string)
    ensures DecodeWorkletText(Injector.Payload(workletCode)) == Some(workletCode)
  {
    Injector.PayloadDecodes(workletCode);
    Utf8.DecodeEncode(workletCode);
  }
}
