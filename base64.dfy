/**
 * Base64 with padding (section 4 of RFC 4648): the encoding that
 * `Buffer.prototype.toString("base64")` produces for the worklet's bytes,
 * and the decoding that the injected function performs at run time.
 */
module Base64 {
  import opened Wrappers
  import opened Utf8

  /** The 64 characters of the alphabet: `A-Z a-z 0-9 + /`. */
  predicate IsAlphabetChar(c: char) {
    ('A' <= c <= 'Z') || ('a' <= c <= 'z') || ('0' <= c <= '9') || c == '+' || c == '/'
  }

  /** The character for a 6-bit value (Table 1 of RFC 4648). */
  function CharOf(v: nat): (c: char)
    requires v < 64
    ensures IsAlphabetChar(c)
  {
    if v < 26 then ('A' as int + v) as char
    else if v < 52 then ('a' as int + (v - 26)) as char
    else if v < 62 then ('0' as int + (v - 52)) as char
    else if v == 62 then '+'
    else '/'
  }

  /** The 6-bit value of an alphabet character, `None` for any other character. */
  function ValueOf(c: char): (r: Option<nat>)
    ensures r.Some? <==> IsAlphabetChar(c)
    ensures r.Some? ==> r.value < 64
  {
    if 'A' <= c <= 'Z' then Some(c as int - 'A' as int)
    else if 'a' <= c <= 'z' then Some(c as int - 'a' as int + 26)
    else if '0' <= c <= '9' then Some(c as int - '0' as int + 52)
    else if c == '+' then Some(62)
    else if c == '/' then Some(63)
    else None
  }

  /** The four 6-bit values of a group of three bytes (missing bytes count as zero). */
  function Sextet0(b0: byte): nat { b0 / 4 }
  function Sextet1(b0: byte, b1: byte): nat { (b0 % 4) * 16 + b1 / 16 }
  function Sextet2(b1: byte, b2: byte): nat { (b1 % 16) * 4 + b2 / 64 }
  function Sextet3(b2: byte): nat { b2 % 64 }
  /** The second and third 6-bit values of a short last group, whose missing bytes count as zero. */
  function PadSextet1(b0: byte): nat { (b0 % 4) * 16 }
  function PadSextet2(b1: byte): nat { (b1 % 16) * 4 }

  /** The three bytes of a group of four 6-bit values. */
  function Octet0(v0: nat, v1: nat): int { v0 * 4 + v1 / 16 }
  function Octet1(v1: nat, v2: nat): int { (v1 % 16) * 16 + v2 / 4 }
  function Octet2(v2: nat, v3: nat): int { (v2 % 4) * 64 + v3 }

  /** `ValueOf` undoes `CharOf`: distinct 6-bit values get distinct characters. */
  lemma ValueOfCharOf(v: nat)
    requires v < 64
    ensures ValueOf(CharOf(v)) == Some(v)
  {
  }

  /**
   * Every character is from the alphabet, except `=` padding in the last two places,
   * and a `=` in the next-to-last place is followed by another: nothing but `=`
   * follows a `=`.
   */
  predicate IsPaddedText(s: string) {
    && (forall i | 0 <= i < |s| :: IsAlphabetChar(s[i]) || (s[i] == '=' && i + 2 >= |s|))
    && (|s| >= 2 && s[|s| - 2] == '=' ==> s[|s| - 1] == '=')
  }

  /**
   * The bits of a short last group that no byte fills are zero (section 3.5 of
   * RFC 4648): four bits before `==`, two bits before a single `=`.
   */
  predicate PadBitsZero(s: string) {
    && (|s| >= 4 && s[|s| - 2] == '=' ==> ValueOf(s[|s| - 3]).Some? && ValueOf(s[|s| - 3]).value % 16 == 0)
    && (|s| >= 4 && s[|s| - 2] != '=' && s[|s| - 1] == '=' ==>
          ValueOf(s[|s| - 2]).Some? && ValueOf(s[|s| - 2]).value % 4 == 0)
  }

  /** Encodes each group of three bytes as four characters; a short last group is padded with `=`. */
  function Encode(b: seq<byte>): (r: string)
    ensures |r| == 4 * ((|b| + 2) / 3)
    ensures IsPaddedText(r)
    decreases |b|
  {
    if |b| == 0 then []
    else if |b| == 1 then
      [CharOf(Sextet0(b[0])), CharOf(PadSextet1(b[0])), '=', '=']
    else if |b| == 2 then
      [CharOf(Sextet0(b[0])), CharOf(Sextet1(b[0], b[1])), CharOf(PadSextet2(b[1])), '=']
    else
      var rest := Encode(b[3..]);
      var g := [CharOf(Sextet0(b[0])), CharOf(Sextet1(b[0], b[1])),
                CharOf(Sextet2(b[1], b[2])), CharOf(Sextet3(b[2]))];
      PaddedAfterWholeGroup(g, rest);
      GroupsLength(|b| - 3);
      g + rest
  }

  /**
   * Decodes padded base64 text: its length must be a multiple of four and `=` may
   * appear only as the last one or two characters of the last group. Bits beyond
   * the last whole byte are ignored, as `atob` ignores them.
   */
  function Decode(s: string): (r: Option<seq<byte>>)
    decreases |s|
  {
    if |s| == 0 then Some([])
    else if |s| < 4 then None
    else
      var v0, v1, v2, v3 := ValueOf(s[0]), ValueOf(s[1]), ValueOf(s[2]), ValueOf(s[3]);
      if v0.None? || v1.None? then None
      else if |s| == 4 && s[2] == '=' && s[3] == '=' then
        Some([Octet0(v0.value, v1.value)])
      else if v2.None? then None
      else if |s| == 4 && s[3] == '=' then
        Some([Octet0(v0.value, v1.value), Octet1(v1.value, v2.value)])
      else if v3.None? then None
      else
        match Decode(s[4..])
        case None => None
        case Some(rest) =>
          Some([Octet0(v0.value, v1.value), Octet1(v1.value, v2.value), Octet2(v2.value, v3.value)] + rest)
  }

  /** Only padded base64 text is accepted, four characters for every three bytes or fewer. */
  lemma {:induction false} DecodeAcceptsPadded(s: string)
    requires Decode(s).Some?
    ensures IsPaddedText(s) && |s| == 4 * ((|Decode(s).value| + 2) / 3)
    decreases |s|
  {
    if |s| == 0 {
    } else if |s| == 4 && s[3] == '=' {
      assert IsAlphabetChar(s[0]) && IsAlphabetChar(s[1]);
      assert s[2] == '=' || IsAlphabetChar(s[2]);
      PaddedLastGroup(s);
    } else {
      DecodeFullGroup(s);
      DecodeAcceptsPadded(s[4..]);
      PaddedAfterGroup(s);
      GroupsLength(|Decode(s[4..]).value|);
    }
  }

  /** Text that decodes and does not end after one padded group starts with a whole group. */
  lemma DecodeFullGroup(s: string)
    requires Decode(s).Some? && |s| != 0 && !(|s| == 4 && s[3] == '=')
    ensures |s| >= 4 && IsAlphabetChar(s[0]) && IsAlphabetChar(s[1]) && IsAlphabetChar(s[2]) && IsAlphabetChar(s[3])
    ensures Decode(s[4..]).Some? && |Decode(s).value| == 3 + |Decode(s[4..]).value|
  {
  }

  /** One more group of three bytes takes four more characters. */
  lemma GroupsLength(n: nat)
    ensures 4 * ((3 + n + 2) / 3) == 4 + 4 * ((n + 2) / 3)
  {
  }

  /** A last group `xy==` or `xyz=` is padded text. */
  lemma PaddedLastGroup(s: string)
    requires |s| == 4 && IsAlphabetChar(s[0]) && IsAlphabetChar(s[1]) && s[3] == '='
    requires s[2] == '=' || IsAlphabetChar(s[2])
    ensures IsPaddedText(s)
  {
  }

  /** Four alphabet characters in front of padded text give padded text. */
  lemma PaddedAfterGroup(s: string)
    requires |s| >= 4 && IsAlphabetChar(s[0]) && IsAlphabetChar(s[1]) && IsAlphabetChar(s[2]) && IsAlphabetChar(s[3])
    requires IsPaddedText(s[4..])
    ensures IsPaddedText(s)
  {
    assert forall i | 4 <= i < |s| :: s[i] == s[4..][i - 4];
  }

  /** Four alphabet characters in front of padded text give padded text. */
  lemma PaddedAfterWholeGroup(g: string, rest: string)
    requires |g| == 4 && IsAlphabetChar(g[0]) && IsAlphabetChar(g[1]) && IsAlphabetChar(g[2]) && IsAlphabetChar(g[3])
    requires IsPaddedText(rest)
    ensures IsPaddedText(g + rest)
  {
    var r := g + rest;
    assert forall i | 4 <= i < |r| :: r[i] == rest[i - 4];
  }

  /** The text never contains the characters that would end or escape a JavaScript string literal. */
  lemma {:induction false} EncodeIsLiteralSafe(b: seq<byte>)
    ensures '"' !in Encode(b) && '\\' !in Encode(b) && '\'' !in Encode(b) && '$' !in Encode(b)
  {
    var r := Encode(b);
    forall i | 0 <= i < |r| ensures r[i] != '"' && r[i] != '\\' && r[i] != '\'' && r[i] != '$' {
      assert IsAlphabetChar(r[i]) || r[i] == '=';
    }
  }

  /** The encoder leaves the unfilled bits of a short last group zero. */
  lemma {:induction false} EncodePadBitsZero(b: seq<byte>)
    ensures PadBitsZero(Encode(b))
    decreases |b|
  {
    var r := Encode(b);
    if |b| == 1 {
      ValueOfCharOf(PadSextet1(b[0]));
    } else if |b| == 2 {
      ValueOfCharOf(PadSextet2(b[1]));
    } else if |b| >= 3 {
      var rest := Encode(b[3..]);
      EncodePadBitsZero(b[3..]);
      var g := [CharOf(Sextet0(b[0])), CharOf(Sextet1(b[0], b[1])), CharOf(Sextet2(b[1], b[2])), CharOf(Sextet3(b[2]))];
      assert r == g + rest;
      PadBitsZeroAfterGroup(g, rest);
    }
  }

  /** A whole group in front of text keeps its pad bits as they are. */
  lemma PadBitsZeroAfterGroup(g: string, rest: string)
    requires |g| == 4 && IsAlphabetChar(g[2]) && IsAlphabetChar(g[3])
    requires PadBitsZero(rest) && (|rest| == 0 || |rest| >= 4)
    ensures PadBitsZero(g + rest)
  {
    var r := g + rest;
    if |rest| >= 4 {
      assert r[|r| - 3..] == rest[|rest| - 3..];
    } else {
      assert r == g;
      assert !IsAlphabetChar('=');
    }
  }

  /** The bytes of a group are recovered from its four 6-bit values. */
  lemma DecodeGroup(b0: byte, b1: byte, b2: byte)
    ensures Octet0(Sextet0(b0), Sextet1(b0, b1)) == b0
    ensures Octet1(Sextet1(b0, b1), Sextet2(b1, b2)) == b1
    ensures Octet2(Sextet2(b1, b2), Sextet3(b2)) == b2
  {
  }

  /** The bytes of a short last group are recovered from its 6-bit values. */
  lemma DecodePaddedGroup(b0: byte, b1: byte)
    ensures Octet0(Sextet0(b0), PadSextet1(b0)) == b0
    ensures Octet0(Sextet0(b0), Sextet1(b0, b1)) == b0
    ensures Octet1(Sextet1(b0, b1), PadSextet2(b1)) == b1
  {
  }

  /** Round trip: decoding the encoding of any byte sequence gives exactly those bytes. */
  lemma {:induction false} DecodeEncode(b: seq<byte>)
    ensures Decode(Encode(b)) == Some(b)
    decreases |b|
  {
    if |b| == 1 {
      DecodeEncodeOne(b);
    } else if |b| == 2 {
      DecodeEncodeTwo(b);
    } else if |b| >= 3 {
      DecodeEncode(b[3..]);
      DecodeEncodeGroup(b);
    }
  }

  lemma {:induction false} DecodeEncodeOne(b: seq<byte>)
    requires |b| == 1
    ensures Decode(Encode(b)) == Some(b)
  {
    assert b == [b[0]];
    var v0, v1 := Sextet0(b[0]), PadSextet1(b[0]);
    assert Encode(b) == [CharOf(v0), CharOf(v1), '=', '='];
    ValueOfCharOf(v0);
    ValueOfCharOf(v1);
    DecodeQuadTwoPads(CharOf(v0), CharOf(v1));
    DecodePaddedGroup(b[0], b[0]);
  }

  lemma {:induction false} DecodeEncodeTwo(b: seq<byte>)
    requires |b| == 2
    ensures Decode(Encode(b)) == Some(b)
  {
    assert b == [b[0], b[1]];
    var v0, v1, v2 := Sextet0(b[0]), Sextet1(b[0], b[1]), PadSextet2(b[1]);
    assert Encode(b) == [CharOf(v0), CharOf(v1), CharOf(v2), '='];
    ValueOfCharOf(v0);
    ValueOfCharOf(v1);
    ValueOfCharOf(v2);
    DecodeQuadOnePad(CharOf(v0), CharOf(v1), CharOf(v2));
    DecodePaddedGroup(b[0], b[1]);
  }

  /** One full group followed by the encoding of the rest decodes to the group followed by the rest. */
  lemma {:induction false} DecodeEncodeGroup(b: seq<byte>)
    requires |b| >= 3
    requires Decode(Encode(b[3..])) == Some(b[3..])
    ensures Decode(Encode(b)) == Some(b)
  {
    var rest := Encode(b[3..]);
    assert Encode(b) == [CharOf(Sextet0(b[0])), CharOf(Sextet1(b[0], b[1])),
                         CharOf(Sextet2(b[1], b[2])), CharOf(Sextet3(b[2]))] + rest;
    DecodeGroupThenRest(b[0], b[1], b[2], rest);
    FirstGroup(b);
  }

  lemma FirstGroup(b: seq<byte>)
    requires |b| >= 3
    ensures b == [b[0], b[1], b[2]] + b[3..]
  {
    assert b[..3] == [b[0], b[1], b[2]];
    assert b == b[..3] + b[3..];
  }

  /** The four characters of a full group, followed by decodable text, decode to the group's bytes followed by that text's bytes. */
  lemma {:induction false} DecodeGroupThenRest(b0: byte, b1: byte, b2: byte, rest: string)
    requires Decode(rest).Some?
    ensures Decode([CharOf(Sextet0(b0)), CharOf(Sextet1(b0, b1)), CharOf(Sextet2(b1, b2)), CharOf(Sextet3(b2))] + rest)
      == Some([b0, b1, b2] + Decode(rest).value)
  {
    var v0, v1, v2, v3 := Sextet0(b0), Sextet1(b0, b1), Sextet2(b1, b2), Sextet3(b2);
    ValueOfCharOf(v0);
    ValueOfCharOf(v1);
    ValueOfCharOf(v2);
    ValueOfCharOf(v3);
    DecodeQuadFull(CharOf(v0), CharOf(v1), CharOf(v2), CharOf(v3), rest);
    DecodeGroup(b0, b1, b2);
  }

  /** A last group `xy==` decodes to one byte. */
  lemma DecodeQuadTwoPads(c0: char, c1: char)
    requires IsAlphabetChar(c0) && IsAlphabetChar(c1)
    ensures Decode([c0, c1, '=', '=']) == Some([Octet0(ValueOf(c0).value, ValueOf(c1).value)])
  {
  }

  /** A last group `xyz=` decodes to two bytes. */
  lemma DecodeQuadOnePad(c0: char, c1: char, c2: char)
    requires IsAlphabetChar(c0) && IsAlphabetChar(c1) && IsAlphabetChar(c2)
    ensures Decode([c0, c1, c2, '=']) ==
      Some([Octet0(ValueOf(c0).value, ValueOf(c1).value), Octet1(ValueOf(c1).value, ValueOf(c2).value)])
  {
  }

  /** A group of four alphabet characters decodes to three bytes, followed by whatever the rest decodes to. */
  lemma {:induction false} DecodeQuadFull(c0: char, c1: char, c2: char, c3: char, rest: string)
    requires IsAlphabetChar(c0) && IsAlphabetChar(c1) && IsAlphabetChar(c2) && IsAlphabetChar(c3)
    requires Decode(rest).Some?
    ensures Decode([c0, c1, c2, c3] + rest) ==
      Some([Octet0(ValueOf(c0).value, ValueOf(c1).value), Octet1(ValueOf(c1).value, ValueOf(c2).value),
            Octet2(ValueOf(c2).value, ValueOf(c3).value)] + Decode(rest).value)
  {
    var s := [c0, c1, c2, c3] + rest;
    assert s[4..] == rest;
    assert s[..4] == [c0, c1, c2, c3];
  }
}
