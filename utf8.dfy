/**
 * UTF-8 (RFC 3629) as used by `Buffer.from(text, "utf-8")` when the plugin turns the
 * worklet bundle into bytes, plus the decoder that undoes it. Dafny's `char` is a
 * Unicode scalar value, which is what a file read as UTF-8 yields.
 */
module Utf8 {
  import opened Wrappers

  type byte = x: int | 0 <= x < 256

  /** Every character is in the 7-bit ASCII range. */
  predicate IsAscii(s: string) {
    forall i | 0 <= i < |s| :: s[i] as int < 0x80
  }

  /** A continuation byte `10xxxxxx`. */
  predicate IsCont(b: byte) {
    0x80 <= b < 0xC0
  }

  /** The one to four bytes of one scalar value. */
  function EncodeChar(c: char): (r: seq<byte>)
    ensures 1 <= |r| <= 4
    ensures |r| == 1 <==> c as int < 0x80
    ensures |r| == 1 ==> r[0] == c as int
  {
    var cp := c as int;
    var q1 := cp / 64;
    var q2 := q1 / 64;
    if cp < 0x80 then [cp]
    else if cp < 0x800 then [0xC0 + q1, 0x80 + cp % 64]
    else if cp < 0x10000 then [0xE0 + q2, 0x80 + q1 % 64, 0x80 + cp % 64]
    else [0xF0 + q2 / 64, 0x80 + q2 % 64, 0x80 + q1 % 64, 0x80 + cp % 64]
  }

  /** The bytes of a text: each scalar value in turn, one to four bytes each. */
  function Encode(s: string): (r: seq<byte>)
    ensures |s| <= |r| <= 4 * |s|
  {
    if s == [] then [] else EncodeChar(s[0]) + Encode(s[1..])
  }

  /**
   * Decodes the scalar value at the front of `b`, giving it with the number of bytes
   * it used; rejects stray continuation bytes, truncated sequences, overlong forms,
   * surrogates and values above U+10FFFF.
   */
  function DecodeFirst(b: seq<byte>): (r: Option<(char, nat)>)
    requires |b| > 0
    ensures r.Some? ==> 1 <= r.value.1 <= |b| && r.value.1 <= 4
  {
    var b0 := b[0] as int;
    if b0 < 0x80 then Some((b0 as char, 1))
    else if 0xC2 <= b0 < 0xE0 && |b| >= 2 && IsCont(b[1]) then
      Some((((b0 - 0xC0) * 64 + (b[1] as int - 0x80)) as char, 2))
    else if 0xE0 <= b0 < 0xF0 && |b| >= 3 && IsCont(b[1]) && IsCont(b[2]) then
      var cp := (b0 - 0xE0) * 4096 + (b[1] as int - 0x80) * 64 + (b[2] as int - 0x80);
      if cp < 0x800 || (0xD800 <= cp < 0xE000) then None else Some((cp as char, 3))
    else if 0xF0 <= b0 < 0xF5 && |b| >= 4 && IsCont(b[1]) && IsCont(b[2]) && IsCont(b[3]) then
      var cp := (b0 - 0xF0) * 0x40000 + (b[1] as int - 0x80) * 4096 + (b[2] as int - 0x80) * 64 + (b[3] as int - 0x80);
      if cp < 0x10000 || cp >= 0x110000 then None else Some((cp as char, 4))
    else None
  }

  /** Strict UTF-8 decoding: `None` on any ill-formed sequence. */
  function Decode(b: seq<byte>): (r: Option<string>)
    decreases |b|
  {
    if b == [] then Some([])
    else match DecodeFirst(b)
      case None => None
      case Some((c, n)) =>
        match Decode(b[n..])
        case None => None
        case Some(rest) => Some([c] + rest)
  }

  /** Decoding the bytes of one scalar value, followed by anything, gives that value back. */
  lemma DecodeFirstEncodeChar(c: char, rest: seq<byte>)
    ensures DecodeFirst(EncodeChar(c) + rest) == Some((c, |EncodeChar(c)|))
  {
    var cp := c as int;
    if cp < 0x80 {
    } else if cp < 0x800 {
      DecodeFirstTwo(c, rest);
    } else if cp < 0x10000 {
      DecodeFirstThree(c, rest);
    } else {
      DecodeFirstFour(c, rest);
    }
  }

  lemma DecodeFirstTwo(c: char, rest: seq<byte>)
    requires 0x80 <= c as int < 0x800
    ensures DecodeFirst(EncodeChar(c) + rest) == Some((c, 2))
  {
    var cp := c as int;
    var q1, d0 := cp / 64, cp % 64;
    assert cp == q1 * 64 + d0;
    var b := EncodeChar(c) + rest;
    assert b[0] as int == 0xC0 + q1 && b[1] as int == 0x80 + d0;
  }

  lemma DecodeFirstThree(c: char, rest: seq<byte>)
    requires 0x800 <= c as int < 0x10000
    ensures DecodeFirst(EncodeChar(c) + rest) == Some((c, 3))
  {
    var cp := c as int;
    var q1, d0 := cp / 64, cp % 64;
    var q2, d1 := q1 / 64, q1 % 64;
    assert cp == q1 * 64 + d0 && q1 == q2 * 64 + d1;
    assert cp == q2 * 4096 + d1 * 64 + d0;
    var b := EncodeChar(c) + rest;
    assert b[0] as int == 0xE0 + q2 && b[1] as int == 0x80 + d1 && b[2] as int == 0x80 + d0;
  }

  lemma DecodeFirstFour(c: char, rest: seq<byte>)
    requires 0x10000 <= c as int
    ensures DecodeFirst(EncodeChar(c) + rest) == Some((c, 4))
  {
    var cp := c as int;
    var q1, d0 := cp / 64, cp % 64;
    var q2, d1 := q1 / 64, q1 % 64;
    var q3, d2 := q2 / 64, q2 % 64;
    assert cp == q1 * 64 + d0 && q1 == q2 * 64 + d1 && q2 == q3 * 64 + d2;
    assert cp == q3 * 0x40000 + d2 * 4096 + d1 * 64 + d0;
    var b := EncodeChar(c) + rest;
    assert b[0] as int == 0xF0 + q3 && b[1] as int == 0x80 + d2;
    assert b[2] as int == 0x80 + d1 && b[3] as int == 0x80 + d0;
  }

  /** UTF-8 round trip: decoding the encoding of any text gives the text back. */
  lemma {:induction false} DecodeEncode(s: string)
    ensures Decode(Encode(s)) == Some(s)
  {
    if s != [] {
      var head, tail := EncodeChar(s[0]), Encode(s[1..]);
      assert Encode(s) == head + tail && Encode(s) != [];
      DecodeFirstEncodeChar(s[0], tail);
      assert (head + tail)[|head|..] == tail;
      DecodeEncode(s[1..]);
      assert [s[0]] + s[1..] == s;
    }
  }

  /**
   * The encoding is never shorter than the text, is exactly as long only for ASCII
   * text, and then each byte is the code of the character at the same position.
   */
  lemma {:induction false} EncodeLength(s: string)
    ensures |Encode(s)| >= |s|
    ensures |Encode(s)| == |s| <==> IsAscii(s)
    ensures IsAscii(s) ==> forall i | 0 <= i < |s| :: Encode(s)[i] == s[i] as int
  {
    if s != [] {
      EncodeLength(s[1..]);
      var t := s[1..];
      assert forall i | 0 <= i < |t| :: t[i] == s[i + 1];
      if IsAscii(s) {
        assert IsAscii(t);
        forall i | 0 <= i < |s| ensures Encode(s)[i] == s[i] as int {
          if i > 0 { assert Encode(s)[i] == Encode(t)[i - 1]; }
        }
      }
      if IsAscii(t) && s[0] as int < 0x80 {
        assert IsAscii(s);
      }
    }
  }
}
