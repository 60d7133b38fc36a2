/** UTF-8 (RFC 3629), the character encoding URLDecoder is given: one to four bytes for each
    character.  A byte that starts no well-formed sequence decodes to U+FFFD. */
module Utf8 {

  type Byte = n: int | 0 <= n < 256

  const REPLACEMENT: char := '\U{FFFD}'

  function EncodeChar(c: char): (bytes: seq<Byte>)
    ensures 1 <= |bytes| <= 4
  {
    var n := c as int;
    if n < 0x80 then [n]
    else if n < 0x800 then [0xC0 + n / 0x40, 0x80 + n % 0x40]
    else if n < 0x1_0000 then [0xE0 + n / 0x1000, 0x80 + n / 0x40 % 0x40, 0x80 + n % 0x40]
    else [0xF0 + n / 0x4_0000, 0x80 + n / 0x1000 % 0x40, 0x80 + n / 0x40 % 0x40, 0x80 + n % 0x40]
  }

  function Encode(s: string): (bytes: seq<Byte>)
    ensures |bytes| >= |s|
  {
    if s == "" then [] else EncodeChar(s[0]) + Encode(s[1..])
  }

  predicate Continues(b: Byte) { 0x80 <= b < 0xC0 }

  /** The length of the sequence a first byte announces; 0 if it announces none. */
  function Announced(b: Byte): nat {
    if b < 0x80 then 1 else if 0xC0 <= b < 0xE0 then 2 else if 0xE0 <= b < 0xF0 then 3 else if 0xF0 <= b < 0xF8 then 4 else 0
  }

  /** The code point of a sequence of the announced length. */
  function CodePoint(bytes: seq<Byte>): int
    requires |bytes| > 0 && |bytes| == Announced(bytes[0]) && forall k :: 1 <= k < |bytes| ==> Continues(bytes[k])
  {
    if |bytes| == 1 then bytes[0]
    else if |bytes| == 2 then 0x40 * (bytes[0] as int - 0xC0) + (bytes[1] as int - 0x80)
    else if |bytes| == 3 then 0x1000 * (bytes[0] as int - 0xE0) + 0x40 * (bytes[1] as int - 0x80) + (bytes[2] as int - 0x80)
    else 0x4_0000 * (bytes[0] as int - 0xF0) + 0x1000 * (bytes[1] as int - 0x80)
         + 0x40 * (bytes[2] as int - 0x80) + (bytes[3] as int - 0x80)
  }

  /** A code point that is a character and needs this many bytes: surrogates and overlong
      sequences are malformed. */
  predicate Shortest(n: int, length: nat) {
    match length
    case 1 => 0 <= n < 0x80
    case 2 => 0x80 <= n < 0x800
    case 3 => 0x800 <= n < 0xD800 || 0xE000 <= n < 0x1_0000
    case _ => 0x1_0000 <= n < 0x11_0000
  }

  /** The first character and how many bytes it takes. */
  function DecodeChar(bytes: seq<Byte>): (r: (char, nat))
    requires bytes != []
    ensures 1 <= r.1 <= |bytes|
  {
    var n := Announced(bytes[0]);
    if n == 0 || n > |bytes| || exists k :: 1 <= k < n && !Continues(bytes[k]) then (REPLACEMENT, 1)
    else
      var point := CodePoint(bytes[..n]);
      if Shortest(point, n) then (point as char, n) else (REPLACEMENT, 1)
  }

  function Decode(bytes: seq<Byte>): (s: string)
    ensures |s| <= |bytes|
  {
    if bytes == [] then ""
    else
      var (c, n) := DecodeChar(bytes);
      [c] + Decode(bytes[n..])
  }

  /** The bytes of a character announce their length, continue, and give its code point. */
  lemma EncodedChar(c: char)
    ensures var bytes := EncodeChar(c);
            && Announced(bytes[0]) == |bytes| && (forall k :: 1 <= k < |bytes| ==> Continues(bytes[k]))
            && CodePoint(bytes) == c as int && Shortest(c as int, |bytes|)
  {
    var n := c as int;
    assert n == 0x40 * (n / 0x40) + n % 0x40;
    assert n / 0x40 == 0x40 * (n / 0x40 / 0x40) + n / 0x40 % 0x40 && n / 0x40 / 0x40 == n / 0x1000;
    assert n / 0x1000 == 0x40 * (n / 0x1000 / 0x40) + n / 0x1000 % 0x40 && n / 0x1000 / 0x40 == n / 0x4_0000;
  }

  lemma DecodeEncodedChar(c: char, rest: seq<Byte>)
    ensures DecodeChar(EncodeChar(c) + rest) == (c, |EncodeChar(c)|)
  {
    hide EncodeChar, CodePoint, Announced, Continues, Shortest;
    EncodedChar(c);
    var bytes := EncodeChar(c) + rest;
    assert bytes[..|EncodeChar(c)|] == EncodeChar(c);
    assert forall k :: 0 <= k < |EncodeChar(c)| ==> bytes[k] == EncodeChar(c)[k];
  }

  /** Decoding inverts encoding for every string. */
  lemma {:induction false} RoundTrip(s: string)
    ensures Decode(Encode(s)) == s
  {
    if s != "" {
      hide EncodeChar, DecodeChar;
      var first, rest := EncodeChar(s[0]), Encode(s[1..]);
      DecodeEncodedChar(s[0], rest);
      assert (first + rest)[|first|..] == rest;
      RoundTrip(s[1..]);
      assert [s[0]] + s[1..] == s;
    }
  }

  /** ASCII is itself. */
  lemma AsciiStays(b: Byte)
    requires b < 0x80
    ensures Decode([b]) == [b as char]
  {
    assert DecodeChar([b]) == (b as char, 1) by { assert [b][..1] == [b]; }
    assert [b][1..] == [];
  }
}
