/**
 * UTF-8 (RFC 3629), the charset the client hands to the form encoder.
 * A Dafny `string` is a sequence of Unicode scalar values, so every character
 * has exactly one encoding of one to four bytes.
 */
module Utf8 {
  import opened Wrappers

  newtype byte = b: int | 0 <= b < 256

  /** A continuation byte, 10xxxxxx. */
  predicate IsContinuation(b: byte) {
    0x80 <= b < 0xC0
  }

  /** The encoding of one scalar value; ASCII is its own single byte. */
  function EncodeScalar(c: char): (r: seq<byte>)
    ensures 1 <= |r| <= 4
    ensures (c as int < 0x80) <==> |r| == 1
    ensures |r| == 1 ==> r[0] as int == c as int
    ensures forall k :: 1 <= k < |r| ==> IsContinuation(r[k])
  {
    var n := c as int;
    var q1 := n / 0x40;
    var q2 := q1 / 0x40;
    if n < 0x80 then
      [n as byte]
    else if n < 0x800 then
      [(0xC0 + q1) as byte, (0x80 + n % 0x40) as byte]
    else if n < 0x1_0000 then
      [(0xE0 + q2) as byte, (0x80 + q1 % 0x40) as byte, (0x80 + n % 0x40) as byte]
    else
      [(0xF0 + q2 / 0x40) as byte, (0x80 + q2 % 0x40) as byte,
       (0x80 + q1 % 0x40) as byte, (0x80 + n % 0x40) as byte]
  }

  /** The encoding of a string: its scalar values' encodings, concatenated. */
  function Encode(s: string): (r: seq<byte>)
    ensures |s| <= |r| <= 4 * |s|
  {
    if s == [] then [] else EncodeScalar(s[0]) + Encode(s[1..])
  }

  /**
   * Decodes the scalar value at the front of `bs`, with the number of bytes it
   * occupies. Overlong forms, surrogates and values above U+10FFFF are refused.
   */
  function DecodeScalar(bs: seq<byte>): (r: Option<(char, nat)>)
    requires bs != []
    ensures r.Some? ==> 1 <= r.value.1 <= |bs|
  {
    var b0 := bs[0] as int;
    if b0 < 0x80 then
      Some((b0 as char, 1))
    else if 0xC2 <= b0 < 0xE0 && |bs| >= 2 && IsContinuation(bs[1]) then
      var n := (b0 - 0xC0) * 0x40 + (bs[1] as int - 0x80);
      Some((n as char, 2))
    else if 0xE0 <= b0 < 0xF0 && |bs| >= 3 && IsContinuation(bs[1]) && IsContinuation(bs[2]) then
      var n := (b0 - 0xE0) * 0x1000 + (bs[1] as int - 0x80) * 0x40 + (bs[2] as int - 0x80);
      if 0x800 <= n && !(0xD800 <= n < 0xE000) then Some((n as char, 3)) else None
    else if 0xF0 <= b0 < 0xF5 && |bs| >= 4
            && IsContinuation(bs[1]) && IsContinuation(bs[2]) && IsContinuation(bs[3]) then
      var n := (b0 - 0xF0) * 0x4_0000 + (bs[1] as int - 0x80) * 0x1000
               + (bs[2] as int - 0x80) * 0x40 + (bs[3] as int - 0x80);
      if 0x1_0000 <= n <= 0x10_FFFF then Some((n as char, 4)) else None
    else
      None
  }

  /** Decodes a whole byte sequence, or None when it is not well-formed UTF-8. */
  function Decode(bs: seq<byte>): (r: Option<string>)
    decreases |bs|
  {
    if bs == [] then Some([])
    else match DecodeScalar(bs)
      case None => None
      case Some((c, k)) =>
        match Decode(bs[k..])
        case None => None
        case Some(rest) => Some([c] + rest)
  }

  lemma DecodeScalarOfEncode(c: char, rest: seq<byte>)
    ensures DecodeScalar(EncodeScalar(c) + rest) == Some((c, |EncodeScalar(c)|))
  {
    var n := c as int;
    var bs := EncodeScalar(c) + rest;
    var q1 := n / 0x40;
    var q2 := q1 / 0x40;
    assert n == q1 * 0x40 + n % 0x40;
    assert q1 == q2 * 0x40 + q1 % 0x40;
    if n < 0x80 {
    } else if n < 0x800 {
      assert bs[0] as int == 0xC0 + q1 && bs[1] as int == 0x80 + n % 0x40;
    } else if n < 0x1_0000 {
      assert bs[0] as int == 0xE0 + q2;
      assert bs[1] as int == 0x80 + q1 % 0x40;
      assert bs[2] as int == 0x80 + n % 0x40;
    } else {
      assert q2 == (q2 / 0x40) * 0x40 + q2 % 0x40;
      assert bs[0] as int == 0xF0 + q2 / 0x40;
      assert bs[1] as int == 0x80 + q2 % 0x40;
      assert bs[2] as int == 0x80 + q1 % 0x40;
      assert bs[3] as int == 0x80 + n % 0x40;
    }
  }

  /** Decoding inverts encoding, so UTF-8 loses nothing of a string. */
  lemma {:induction false} DecodeEncode(s: string)
    ensures Decode(Encode(s)) == Some(s)
  {
    if s != [] {
      var e := EncodeScalar(s[0]);
      var rest := Encode(s[1..]);
      DecodeScalarOfEncode(s[0], rest);
      assert (e + rest)[|e|..] == rest;
      DecodeEncode(s[1..]);
      assert [s[0]] + s[1..] == s;
    }
  }
}
