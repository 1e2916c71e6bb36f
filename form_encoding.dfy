/**
 * The `application/x-www-form-urlencoded` byte serializer (section 5.2 of the
 * WHATWG URL Standard) that `URLEncoder.encode(v, UTF_8)` applies to every path
 * segment, query key and query value: the string is taken to UTF-8; ASCII
 * alphanumerics and `. - * _` stay as they are, space becomes `+`, and every
 * other byte becomes `%XY` with upper-case hexadecimal digits. `Deserialize` is
 * a matching decoder, used to state that nothing is lost.
 */
module FormEncoding {
  import opened Wrappers
  import opened Utf8

  /** Bytes that pass through unchanged: ASCII alphanumerics and `. - * _`. */
  predicate IsUnreserved(b: byte) {
    || 0x30 <= b <= 0x39
    || 0x41 <= b <= 0x5A
    || 0x61 <= b <= 0x7A
    || b == 0x2E || b == 0x2D || b == 0x2A || b == 0x5F
  }

  /** The same class, as characters: the ASCII characters whose byte is unreserved. */
  predicate IsUnreservedChar(c: char) {
    c as int < 0x80 && IsUnreserved(c as int as byte)
  }

  predicate IsUpperHex(c: char) {
    '0' <= c <= '9' || 'A' <= c <= 'F'
  }

  /**
   * The alphabet of serialized text: unreserved characters, `+`, and `%` that
   * is always followed by two upper-case hexadecimal digits.
   */
  predicate InAlphabet(t: string) {
    forall i :: 0 <= i < |t| ==> InAlphabetAt(t, i)
  }

  predicate InAlphabetAt(t: string, i: nat)
    requires i < |t|
  {
    || IsUnreservedChar(t[i])
    || t[i] == '+'
    || (t[i] == '%' && i + 2 < |t| && IsUpperHex(t[i + 1]) && IsUpperHex(t[i + 2]))
  }

  /** The characters that delimit the parts of a URL. */
  predicate IsUrlDelimiter(c: char) {
    c == '&' || c == '=' || c == '?' || c == '/' || c == '#'
  }

  lemma AlphabetExcludesDelimiters(t: string)
    requires InAlphabet(t)
    ensures forall i :: 0 <= i < |t| ==> !IsUrlDelimiter(t[i])
  {
    forall i | 0 <= i < |t| ensures !IsUrlDelimiter(t[i]) {
      assert InAlphabetAt(t, i);
    }
  }

  /** The upper-case hexadecimal digit of a value below 16. */
  function HexDigit(d: int): (c: char)
    requires 0 <= d < 16
    ensures IsUpperHex(c)
  {
    if d < 10 then ('0' as int + d) as char else ('A' as int + d - 10) as char
  }

  /** The value of a hexadecimal digit of either case, as `URLDecoder` reads it. */
  function HexValue(c: char): (r: Option<int>)
    ensures r.Some? ==> 0 <= r.value < 16
  {
    if '0' <= c <= '9' then Some(c as int - '0' as int)
    else if 'A' <= c <= 'F' then Some(c as int - 'A' as int + 10)
    else if 'a' <= c <= 'f' then Some(c as int - 'a' as int + 10)
    else None
  }

  function SerializeByte(b: byte): (t: string)
    ensures 1 <= |t| <= 3
    ensures InAlphabet(t)
    ensures b == 0x20 ==> t == "+"
  {
    if IsUnreserved(b) then
      var t := [b as int as char];
      assert InAlphabetAt(t, 0);
      t
    else if b == 0x20 then
      var t := "+";
      assert InAlphabetAt(t, 0);
      t
    else
      var t := ['%', HexDigit(b as int / 16), HexDigit(b as int % 16)];
      assert InAlphabetAt(t, 0) && InAlphabetAt(t, 1) && InAlphabetAt(t, 2);
      t
  }

  lemma InAlphabetConcat(a: string, b: string)
    requires InAlphabet(a) && InAlphabet(b)
    ensures InAlphabet(a + b)
  {
    var t := a + b;
    forall i | 0 <= i < |t|
      ensures InAlphabetAt(t, i)
    {
      if i < |a| {
        assert InAlphabetAt(a, i);
        assert t[i] == a[i];
        if a[i] == '%' {
          assert t[i + 1] == a[i + 1] && t[i + 2] == a[i + 2];
        }
      } else {
        var j := i - |a|;
        assert InAlphabetAt(b, j);
        assert t[i] == b[j];
        if b[j] == '%' {
          assert t[i + 1] == b[j + 1] && t[i + 2] == b[j + 2];
        }
      }
    }
  }

  /** The serializer; its output stays inside the alphabet and at most triples the input. */
  function Serialize(bs: seq<byte>): (t: string)
    ensures InAlphabet(t)
    ensures |bs| <= |t| <= 3 * |bs|
  {
    if bs == [] then []
    else
      var head := SerializeByte(bs[0]);
      var tail := Serialize(bs[1..]);
      InAlphabetConcat(head, tail);
      head + tail
  }

  /** One character: the serialization of its UTF-8 bytes. */
  function EncodeChar(c: char): (t: string)
    ensures InAlphabet(t) && t != []
  {
    Serialize(Utf8.EncodeScalar(c))
  }

  /**
   * `URLEncoder.encode(v, UTF_8)`, which walks the string a character at a
   * time: always inside the alphabet, so never one of the URL delimiters
   * `& = ? / #`, and empty exactly when `v` is.
   */
  function Encode(v: string): (t: string)
    ensures InAlphabet(t)
    ensures forall i :: 0 <= i < |t| ==> !IsUrlDelimiter(t[i])
    ensures t == [] <==> v == []
  {
    if v == [] then []
    else
      var head, tail := EncodeChar(v[0]), Encode(v[1..]);
      InAlphabetConcat(head, tail);
      AlphabetExcludesDelimiters(head + tail);
      head + tail
  }

  lemma {:induction false} SerializeConcat(a: seq<byte>, b: seq<byte>)
    ensures Serialize(a + b) == Serialize(a) + Serialize(b)
  {
    if a != [] {
      assert (a + b)[0] == a[0];
      assert (a + b)[1..] == a[1..] + b;
      SerializeConcat(a[1..], b);
    } else {
      assert a + b == b;
    }
  }

  /** Character by character or all at once, the encoding is the serialization of the UTF-8 bytes. */
  lemma {:induction false} EncodeIsSerialize(v: string)
    ensures Encode(v) == Serialize(Utf8.Encode(v))
  {
    if v != [] {
      SerializeConcat(Utf8.EncodeScalar(v[0]), Utf8.Encode(v[1..]));
      EncodeIsSerialize(v[1..]);
    }
  }

  /** Prepends a byte to a decoding that succeeded. */
  function Prepend(b: byte, r: Option<seq<byte>>): Option<seq<byte>> {
    match r
    case None => None
    case Some(bs) => Some([b] + bs)
  }

  /**
   * A form decoder: `+` is a space, `%XY` is one byte (either case of ASCII
   * hex digit), any other character stands for its own UTF-8 bytes; a `%`
   * without two hex digits after it is an error, and so are bytes that are
   * not well-formed UTF-8. It agrees with `URLDecoder` on well-formed input,
   * which includes everything `Encode` emits, and is stricter elsewhere (where
   * `URLDecoder` substitutes U+FFFD or accepts a signed or non-ASCII digit).
   */
  function Deserialize(t: string): (r: Option<seq<byte>>)
    decreases |t|
  {
    if t == [] then Some([])
    else if t[0] == '+' then Prepend(0x20, Deserialize(t[1..]))
    else if t[0] == '%' then
      if |t| >= 3 && HexValue(t[1]).Some? && HexValue(t[2]).Some? then
        Prepend((HexValue(t[1]).value * 16 + HexValue(t[2]).value) as byte, Deserialize(t[3..]))
      else None
    else if t[0] as int < 0x80 then Prepend(t[0] as int as byte, Deserialize(t[1..]))
    else
      match Deserialize(t[1..])
      case None => None
      case Some(bs) => Some(Utf8.EncodeScalar(t[0]) + bs)
  }

  /** A form-encoded string, back to the string it encodes. */
  function Decode(t: string): Option<string> {
    match Deserialize(t)
    case None => None
    case Some(bs) => Utf8.Decode(bs)
  }

  lemma DeserializeOfSerializeByte(b: byte, rest: string)
    ensures Deserialize(SerializeByte(b) + rest) == Prepend(b, Deserialize(rest))
  {
    var t := SerializeByte(b) + rest;
    if IsUnreserved(b) {
      assert t[1..] == rest;
    } else if b == 0x20 {
      assert t[1..] == rest;
    } else {
      var hi, lo := b as int / 16, b as int % 16;
      assert HexValue(HexDigit(hi)) == Some(hi);
      assert HexValue(HexDigit(lo)) == Some(lo);
      assert t[3..] == rest;
    }
  }

  lemma {:induction false} DeserializeSerialize(bs: seq<byte>)
    ensures Deserialize(Serialize(bs)) == Some(bs)
  {
    if bs != [] {
      DeserializeOfSerializeByte(bs[0], Serialize(bs[1..]));
      DeserializeSerialize(bs[1..]);
      assert [bs[0]] + bs[1..] == bs;
    }
  }

  /** Decoding inverts `Encode` for every string. */
  lemma DecodeEncode(v: string)
    ensures Decode(Encode(v)) == Some(v)
  {
    EncodeIsSerialize(v);
    DeserializeSerialize(Utf8.Encode(v));
    Utf8.DecodeEncode(v);
  }

  /** So `Encode` is injective: distinct strings never encode alike. */
  lemma EncodeInjective(v: string, w: string)
    requires Encode(v) == Encode(w)
    ensures v == w
  {
    DecodeEncode(v);
    DecodeEncode(w);
  }

  /**
   * A string of unreserved characters and spaces encodes character for
   * character: each space becomes `+`, everything else stays as it is.
   */
  lemma {:induction false} EncodeUnreserved(v: string)
    requires forall i :: 0 <= i < |v| ==> IsUnreservedChar(v[i]) || v[i] == ' '
    ensures Encode(v) == seq(|v|, i requires 0 <= i < |v| => if v[i] == ' ' then '+' else v[i])
  {
    if v != [] {
      var c := v[0];
      var e := Utf8.EncodeScalar(c);
      assert |e| == 1 && e[0] as int == c as int;
      assert e[1..] == [];
      assert EncodeChar(c) == SerializeByte(e[0]);
      assert EncodeChar(c) == [if c == ' ' then '+' else c];
      EncodeUnreserved(v[1..]);
      var r := seq(|v|, i requires 0 <= i < |v| => if v[i] == ' ' then '+' else v[i]);
      var r1 := seq(|v| - 1, i requires 0 <= i < |v| - 1 => if v[1..][i] == ' ' then '+' else v[1..][i]);
      assert r == [if c == ' ' then '+' else c] + r1;
    }
  }
}
