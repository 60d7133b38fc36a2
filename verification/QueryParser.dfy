/** The query splitter of `VlessLinkParser` (android/.../data/VlessLinkParser.kt).
    `decode` is URLDecoder.decode, None standing for its exception on a malformed
    percent sequence. */
module QueryParser {
  import opened Text
  import Utf8

  type Decoder = string -> Option<string>

  /** `indexOf('=')`, or the length when there is none. */
  function IndexOfEquals(s: string): (n: nat)
    ensures n <= |s| && '=' !in s[..n] && (n < |s| ==> s[n] == '=')
    ensures n == |s| <==> '=' !in s
  {
    if s == "" || s[0] == '=' then 0
    else
      var n := 1 + IndexOfEquals(s[1..]);
      assert s[..n] == [s[0]] + s[1..][..n - 1];
      n
  }

  /** One step of `mapNotNull`: nothing for a piece without '=', otherwise its key and
      value; None when decoding throws. */
  function ParsePiece(piece: string, decode: Decoder): Option<seq<(string, string)>> {
    var n := IndexOfEquals(piece);
    if n == |piece| then Some([])
    else match (decode(piece[..n]), decode(piece[n + 1..]))
      case (Some(key), Some(value)) => Some([(key, value)])
      case _ => None
  }

  function ParsePieces(pieces: seq<string>, decode: Decoder): Option<seq<(string, string)>> {
    if pieces == [] then Some([])
    else match (ParsePiece(pieces[0], decode), ParsePieces(pieces[1..], decode))
      case (Some(first), Some(rest)) => Some(first + rest)
      case _ => None
  }

  /** `toMap`: a later pair replaces an earlier one with the same key. */
  function ToMap(pairs: seq<(string, string)>): map<string, string> {
    if pairs == [] then map[]
    else ToMap(pairs[..|pairs| - 1])[pairs[|pairs| - 1].0 := pairs[|pairs| - 1].1]
  }

  /** `parseQuery`; None when it throws. */
  function ParseQuery(rawQuery: string, decode: Decoder): Option<map<string, string>> {
    if rawQuery == "" then Some(map[])
    else match ParsePieces(Split(rawQuery, '&'), decode)
      case None => None
      case Some(pairs) => Some(ToMap(pairs))
  }

  /** The specification of `toMap`: i is the last pair with its key. */
  ghost predicate IsLast(pairs: seq<(string, string)>, i: nat)
    requires i < |pairs|
  {
    forall j :: i < j < |pairs| ==> pairs[j].0 != pairs[i].0
  }

  lemma {:induction false} ToMapIsLastWins(pairs: seq<(string, string)>)
    ensures forall i :: 0 <= i < |pairs| ==> pairs[i].0 in ToMap(pairs)
    ensures forall i :: 0 <= i < |pairs| && IsLast(pairs, i) ==> ToMap(pairs)[pairs[i].0] == pairs[i].1
    ensures forall k <- ToMap(pairs) :: exists i :: 0 <= i < |pairs| && pairs[i].0 == k
  {
    if pairs != [] {
      var n := |pairs| - 1;
      var front := pairs[..n];
      ToMapIsLastWins(front);
      assert ToMap(pairs) == ToMap(front)[pairs[n].0 := pairs[n].1];
      hide ToMap;
      assert forall i :: 0 <= i < n ==> front[i] == pairs[i];
      forall i | 0 <= i < |pairs| && IsLast(pairs, i) ensures ToMap(pairs)[pairs[i].0] == pairs[i].1 {
        if i < n { assert IsLast(front, i); }
      }
      forall k <- ToMap(pairs) ensures exists i :: 0 <= i < |pairs| && pairs[i].0 == k {
        if k == pairs[n].0 { assert pairs[n].0 == k; }
        else { assert k in ToMap(front); var i :| 0 <= i < n && front[i].0 == k; assert pairs[i].0 == k; }
      }
    }
  }

  // ---- the round trip ----

  ghost predicate Inverts(decode: Decoder, encode: string -> string) {
    forall s :: decode(encode(s)) == Some(s) && '&' !in encode(s) && '=' !in encode(s)
  }

  function EncodePairs(pairs: seq<(string, string)>, encode: string -> string): (pieces: seq<string>)
    ensures |pieces| == |pairs|
  {
    if pairs == [] then [] else [encode(pairs[0].0) + "=" + encode(pairs[0].1)] + EncodePairs(pairs[1..], encode)
  }

  function EncodeQuery(pairs: seq<(string, string)>, encode: string -> string): string {
    if pairs == [] then "" else Join(EncodePairs(pairs, encode), '&')
  }

  lemma FirstEquals(key: string, value: string)
    requires '=' !in key
    ensures IndexOfEquals(key + "=" + value) == |key|
  {
    var s := key + "=" + value;
    var n := IndexOfEquals(s);
    assert s[|key|] == '=' && forall i :: 0 <= i < |key| ==> s[i] == key[i] && key[i] != '=';
    assert forall i :: 0 <= i < n ==> s[..n][i] == s[i] && s[i] != '=';
  }

  /** A piece is split at its first equals sign: the value keeps any other. */
  lemma PieceSplits(key: string, value: string, decode: Decoder)
    requires '=' !in key && decode(key).Some? && decode(value).Some?
    ensures ParsePiece(key + "=" + value, decode) == Some([(decode(key).value, decode(value).value)])
  {
    FirstEquals(key, value);
    var piece := key + "=" + value;
    assert piece[..|key|] == key && piece[|key| + 1..] == value;
  }

  lemma {:induction false} EncodedPiecesParse(pairs: seq<(string, string)>, encode: string -> string, decode: Decoder)
    requires Inverts(decode, encode)
    ensures ParsePieces(EncodePairs(pairs, encode), decode) == Some(pairs)
    ensures NoneContains(EncodePairs(pairs, encode), '&')
  {
    if pairs != [] {
      var (key, value) := pairs[0];
      FirstEquals(encode(key), encode(value));
      var piece := encode(key) + "=" + encode(value);
      assert piece[..|encode(key)|] == encode(key) && piece[|encode(key)| + 1..] == encode(value);
      EncodedPiecesParse(pairs[1..], encode, decode);
      var pieces := EncodePairs(pairs, encode);
      assert pieces[1..] == EncodePairs(pairs[1..], encode);
      forall p <- pieces ensures '&' !in p { assert p == piece || p in pieces[1..]; }
      assert [pairs[0]] + pairs[1..] == pairs;
    }
  }

  /** For any list of pairs and any codec whose decoder inverts its encoder and whose
      encoded text has no `&` or `=` (percent-encoding, section 2.1 of RFC 3986). */
  lemma QueryRoundTrip(pairs: seq<(string, string)>, encode: string -> string, decode: Decoder)
    requires Inverts(decode, encode)
    ensures ParseQuery(EncodeQuery(pairs, encode), decode) == Some(ToMap(pairs))
  {
    if pairs != [] {
      var pieces := EncodePairs(pairs, encode);
      EncodedPiecesParse(pairs, encode, decode);
      SplitJoin(pieces, '&');
      assert Join(pieces, '&') != "" by {
        var (key, value) := pairs[0];
        assert pieces[0] == encode(key) + "=" + encode(value);
      }
    }
  }

  // ---- malformed queries ----

  /** A piece that has a '=' but an undecodable side. */
  predicate IsMalformed(piece: string, decode: Decoder) {
    var n := IndexOfEquals(piece);
    n < |piece| && (decode(piece[..n]).None? || decode(piece[n + 1..]).None?)
  }

  lemma {:induction false} PiecesThrow(pieces: seq<string>, decode: Decoder)
    ensures ParsePieces(pieces, decode).None? <==> exists p :: p in pieces && IsMalformed(p, decode)
  {
    if pieces != [] {
      PiecesThrow(pieces[1..], decode);
      assert pieces == [pieces[0]] + pieces[1..];
      assert ParsePiece(pieces[0], decode).None? <==> IsMalformed(pieces[0], decode);
      if ParsePieces(pieces[1..], decode).None? {
        var p :| p in pieces[1..] && IsMalformed(p, decode);
        assert p in pieces;
      }
    }
  }

  /** The whole query is rejected exactly when some piece with a '=' is malformed. */
  lemma QueryThrowsIff(rawQuery: string, decode: Decoder)
    ensures ParseQuery(rawQuery, decode).None? <==>
            rawQuery != "" && exists p :: p in Split(rawQuery, '&') && IsMalformed(p, decode)
  {
    PiecesThrow(Split(rawQuery, '&'), decode);
  }

  /** Pieces without '=' have no influence, wherever they stand. */
  lemma {:induction false} BarePiecesIgnored(before: seq<string>, bare: string, after: seq<string>, decode: Decoder)
    requires '=' !in bare
    ensures ParsePieces(before + [bare] + after, decode) == ParsePieces(before + after, decode)
  {
    if before == [] {
      assert [] + [bare] + after == [bare] + after && ([bare] + after)[1..] == after && [] + after == after;
      assert forall rest: seq<(string, string)> :: [] + rest == rest;
    } else {
      BarePiecesIgnored(before[1..], bare, after, decode);
      assert (before + [bare] + after)[1..] == before[1..] + [bare] + after;
      assert (before + after)[1..] == before[1..] + after;
    }
  }

  // ---- URLDecoder ----

  /** The character encoding behind URLDecoder and its encoder. */
  datatype Charset = Charset(encode: string -> seq<Utf8.Byte>, decode: seq<Utf8.Byte> -> string)

  /** Decoding inverts encoding, never makes more characters than it gets bytes, and keeps
      ASCII as it is. */
  ghost predicate IsCharset(cs: Charset) {
    && (forall s: string :: cs.decode(cs.encode(s)) == s)
    && (forall bytes: seq<Utf8.Byte> :: |cs.decode(bytes)| <= |bytes|)
    && (forall b: Utf8.Byte :: b < 128 ==> cs.decode([b]) == [b as char])
  }

  /** UTF-8 is one. */
  lemma Utf8IsCharset()
    ensures IsCharset(Charset(Utf8.Encode, Utf8.Decode))
  {
    forall s: string ensures Utf8.Decode(Utf8.Encode(s)) == s { Utf8.RoundTrip(s); }
    forall b: Utf8.Byte | b < 128 ensures Utf8.Decode([b]) == [b as char] { Utf8.AsciiStays(b); }
  }

  const HEX_DIGITS := "0123456789ABCDEF"

  function HexValue(c: char): Option<nat> {
    if '0' <= c <= '9' then Some(c as int - '0' as int)
    else if 'A' <= c <= 'F' then Some(c as int - 'A' as int + 10)
    else if 'a' <= c <= 'f' then Some(c as int - 'a' as int + 10)
    else None
  }

  /** The byte of a `%hh`; None when a digit is missing or not hexadecimal. */
  function EscapedByte(s: string): (b: Option<Utf8.Byte>)
    requires s != "" && s[0] == '%'
    ensures b.Some? ==> |s| >= 3
  {
    if |s| < 3 then None
    else match (HexValue(s[1]), HexValue(s[2]))
      case (Some(high), Some(low)) => if high < 16 && low < 16 then Some(16 * high + low) else None
      case _ => None
  }

  /** The bytes of the escapes at the front, and how many characters they take. */
  function EscapeRun(s: string): (r: Option<(seq<Utf8.Byte>, nat)>)
    ensures r.Some? ==> r.value.1 == 3 * |r.value.0| <= |s|
    ensures r.Some? && s != "" && s[0] == '%' ==> |r.value.0| > 0
  {
    if s == "" || s[0] != '%' then Some(([], 0))
    else match EscapedByte(s)
      case None => None
      case Some(b) =>
        match EscapeRun(s[3..])
        case None => None
        case Some((bytes, n)) => Some(([b] + bytes, n + 3))
  }

  /** `URLDecoder.decode(value, "UTF-8")`: `+` is a blank, a run of `%hh` is decoded as a
      whole, everything else stays; None for a malformed escape. */
  function UrlDecode(cs: Charset, s: string): Option<string>
    decreases |s|
  {
    if s == "" then Some("")
    else if s[0] == '%' then
      match EscapeRun(s)
      case None => None
      case Some((bytes, n)) => Prepend(cs.decode(bytes), UrlDecode(cs, s[n..]))
    else Prepend([if s[0] == '+' then ' ' else s[0]], UrlDecode(cs, s[1..]))
  }

  function Prepend(front: string, rest: Option<string>): Option<string> {
    match rest case None => None case Some(r) => Some(front + r)
  }

  /** Decoding never lengthens a text, and shortens one with a `%`. */
  lemma {:induction false} DecodeShrinks(cs: Charset, s: string)
    requires IsCharset(cs)
    ensures var r := UrlDecode(cs, s); r.Some? ==> |r.value| <= |s| && ('%' in s ==> |r.value| < |s|)
    decreases |s|
  {
    if s != "" {
      if s[0] == '%' {
        var run := EscapeRun(s);
        if run.Some? { DecodeShrinks(cs, s[run.value.1..]); }
      } else {
        DecodeShrinks(cs, s[1..]);
        assert '%' in s ==> '%' in s[1..] by { assert s == [s[0]] + s[1..]; }
      }
    }
  }

  /** Without a `%` decoding succeeds and only turns `+` into blanks. */
  lemma {:induction false} DecodePlain(cs: Charset, s: string)
    requires '%' !in s
    ensures var r := UrlDecode(cs, s);
            r.Some? && |r.value| == |s| && forall i :: 0 <= i < |s| ==> r.value[i] == if s[i] == '+' then ' ' else s[i]
    decreases |s|
  {
    if s != "" {
      assert s[0] in s;
      DecodePlain(cs, s[1..]);
    }
  }

  lemma DecodeFixedIff(cs: Charset, s: string)
    requires IsCharset(cs)
    ensures UrlDecode(cs, s) == Some(s) <==> '+' !in s && '%' !in s
  {
    if '%' in s {
      DecodeShrinks(cs, s);
    } else {
      DecodePlain(cs, s);
      if '+' in s {
        var i :| 0 <= i < |s| && s[i] == '+';
      } else {
        assert UrlDecode(cs, s).value == s;
      }
    }
  }

  /** An encoder that URLDecoder inverts, so the round trip holds for it: every byte is
      written as `%hh`. */
  function PercentEncode(bytes: seq<Utf8.Byte>): (s: string)
    ensures |s| == 3 * |bytes| && forall c <- s :: c == '%' || c in HEX_DIGITS
  {
    if bytes == [] then ""
    else ['%', HEX_DIGITS[bytes[0] / 16], HEX_DIGITS[bytes[0] % 16]] + PercentEncode(bytes[1..])
  }

  lemma HexDigits(n: nat)
    requires n < 16
    ensures HexValue(HEX_DIGITS[n]) == Some(n) && HEX_DIGITS[n] in HEX_DIGITS
  {
  }

  lemma FirstEscape(b: Utf8.Byte, rest: string)
    ensures var s := ['%', HEX_DIGITS[b / 16], HEX_DIGITS[b % 16]] + rest;
            EscapedByte(s) == Some(b) && s[3..] == rest && s[0] == '%'
  {
    hide HexValue, EscapedByte;
    HexDigits(b / 16);
    HexDigits(b % 16);
    EscapeOf(HEX_DIGITS[b / 16], HEX_DIGITS[b % 16], b / 16, b % 16, rest);
    assert 16 * (b / 16) + b % 16 == b;
  }

  lemma EscapeOf(high: char, low: char, h: nat, l: nat, rest: string)
    requires HexValue(high) == Some(h) && HexValue(low) == Some(l) && h < 16 && l < 16
    ensures var s := ['%', high, low] + rest;
            EscapedByte(s) == Some(16 * h + l) && s[3..] == rest && s[0] == '%'
  {
    hide HexValue;
  }

  lemma {:induction false} EscapesOfEncoded(bytes: seq<Utf8.Byte>)
    ensures EscapeRun(PercentEncode(bytes)) == Some((bytes, 3 * |bytes|))
  {
    if bytes != [] {
      hide EscapedByte;
      FirstEscape(bytes[0], PercentEncode(bytes[1..]));
      EscapesOfEncoded(bytes[1..]);
      assert [bytes[0]] + bytes[1..] == bytes;
    }
  }

  lemma DecodeOfEncoded(cs: Charset, s: string)
    requires IsCharset(cs)
    ensures UrlDecode(cs, PercentEncode(cs.encode(s))) == Some(s)
  {
    var bytes := cs.encode(s);
    var text := PercentEncode(bytes);
    EscapesOfEncoded(bytes);
    assert cs.decode(bytes) == s && |s| <= |bytes|;
    if bytes != [] {
      FirstEscape(bytes[0], PercentEncode(bytes[1..]));
      hide EscapeRun, PercentEncode;
      assert text[|text|..] == "" && s + "" == s;
    }
  }

  lemma PercentEncoderInverted(cs: Charset)
    requires IsCharset(cs)
    ensures Inverts(s => UrlDecode(cs, s), s => PercentEncode(cs.encode(s)))
  {
    forall s: string
      ensures UrlDecode(cs, PercentEncode(cs.encode(s))) == Some(s)
      ensures '&' !in PercentEncode(cs.encode(s)) && '=' !in PercentEncode(cs.encode(s))
    {
      hide UrlDecode, IsCharset, PercentEncode;
      DecodeOfEncoded(cs, s);
      EncodedIsClean(cs.encode(s));
    }
  }

  lemma EncodedIsClean(bytes: seq<Utf8.Byte>)
    ensures '&' !in PercentEncode(bytes) && '=' !in PercentEncode(bytes)
  {
    hide PercentEncode;
    assert '&' !in HEX_DIGITS && '=' !in HEX_DIGITS;
  }

  // ---- what URLDecoder accepts, and what a mixed text means ----

  /** The two characters that write a hexadecimal digit. */
  predicate IsDigit(c: char, n: nat) {
    n < 16 && (c == "0123456789ABCDEF"[n] || c == "0123456789abcdef"[n])
  }

  predicate IsHex(c: char) { c in "0123456789ABCDEFabcdef" }

  lemma DigitMeans(c: char, n: nat)
    ensures HexValue(c) == Some(n) <==> IsDigit(c, n)
  {
    if n < 16 { assert "0123456789ABCDEF"[n] == HEX_DIGITS[n]; }
  }

  lemma HexMeans(c: char)
    ensures HexValue(c).Some? <==> IsHex(c)
    ensures HexValue(c).Some? ==> HexValue(c).value < 16
  {
  }

  /** Every `%` is followed by two hexadecimal digits. */
  predicate WellEscaped(s: string) {
    forall i :: 0 <= i < |s| && s[i] == '%' ==> i + 2 < |s| && IsHex(s[i + 1]) && IsHex(s[i + 2])
  }

  lemma EscapedByteIff(s: string)
    requires s != "" && s[0] == '%'
    ensures EscapedByte(s).Some? <==> |s| >= 3 && IsHex(s[1]) && IsHex(s[2])
  {
    hide HexValue, IsHex;
    if |s| >= 3 {
      HexMeans(s[1]);
      HexMeans(s[2]);
    }
  }

  /** An escape that is well written hides nothing from the rest. */
  lemma SkipEscape(s: string)
    requires |s| >= 3 && s[0] == '%' && IsHex(s[1]) && IsHex(s[2])
    ensures WellEscaped(s) <==> WellEscaped(s[3..])
  {
    assert !IsHex('%');
    if WellEscaped(s[3..]) {
      forall i | 0 <= i < |s| && s[i] == '%' ensures i + 2 < |s| && IsHex(s[i + 1]) && IsHex(s[i + 2]) {
        if i >= 3 { assert s[3..][i - 3] == '%'; }
      }
    }
    if WellEscaped(s) {
      forall i | 0 <= i < |s[3..]| && s[3..][i] == '%' ensures i + 2 < |s[3..]| && IsHex(s[3..][i + 1]) && IsHex(s[3..][i + 2]) {
        assert s[i + 3] == '%';
      }
    }
  }

  lemma {:induction false} RunIff(s: string)
    ensures WellEscaped(s) ==> EscapeRun(s).Some?
    ensures EscapeRun(s).Some? ==> (WellEscaped(s) <==> WellEscaped(s[EscapeRun(s).value.1..]))
    decreases |s|
  {
    hide WellEscaped, EscapedByte, IsHex;
    if s != "" && s[0] == '%' {
      EscapedByteIff(s);
      FirstIsWell(s);
      if EscapedByte(s).Some? {
        SkipEscape(s);
        RunIff(s[3..]);
        if EscapeRun(s[3..]).Some? {
          var n := EscapeRun(s[3..]).value.1;
          assert s[3..][n..] == s[n + 3..];
        }
      }
    } else {
      assert s[0..] == s;
    }
  }

  lemma FirstIsWell(s: string)
    requires s != "" && s[0] == '%'
    ensures WellEscaped(s) ==> |s| >= 3 && IsHex(s[1]) && IsHex(s[2])
  {
  }

  lemma SkipPlain(s: string)
    requires s != "" && s[0] != '%'
    ensures WellEscaped(s) <==> WellEscaped(s[1..])
  {
    if WellEscaped(s[1..]) {
      forall i | 0 <= i < |s| && s[i] == '%' ensures i + 2 < |s| && IsHex(s[i + 1]) && IsHex(s[i + 2]) {
        assert s[1..][i - 1] == '%';
      }
    }
    if WellEscaped(s) {
      forall i | 0 <= i < |s[1..]| && s[1..][i] == '%' ensures i + 2 < |s[1..]| && IsHex(s[1..][i + 1]) && IsHex(s[1..][i + 2]) {
        assert s[i + 1] == '%';
      }
    }
  }

  /** URLDecoder rejects a text exactly when some `%` is not followed by two digits. */
  lemma {:induction false} DecodesIff(cs: Charset, s: string)
    ensures UrlDecode(cs, s).Some? <==> WellEscaped(s)
    decreases |s|
  {
    hide WellEscaped, EscapeRun;
    if s == "" {
      EmptyIsWell();
    } else if s[0] == '%' {
      RunIff(s);
      if EscapeRun(s).Some? { DecodesIff(cs, s[EscapeRun(s).value.1..]); }
    } else {
      SkipPlain(s);
      DecodesIff(cs, s[1..]);
    }
  }

  lemma EmptyIsWell()
    ensures WellEscaped("")
  {
  }

  /** A text that writes these bytes as escapes, in either case of the digits. */
  predicate Spells(text: string, bytes: seq<Utf8.Byte>) {
    && |text| == 3 * |bytes|
    && forall k :: 0 <= k < |bytes| ==> text[3 * k] == '%' && IsDigit(text[3 * k + 1], bytes[k] / 16) && IsDigit(text[3 * k + 2], bytes[k] % 16)
  }

  lemma {:induction false} SpelledRun(text: string, bytes: seq<Utf8.Byte>, rest: string)
    requires Spells(text, bytes) && (rest != "" ==> rest[0] != '%')
    ensures EscapeRun(text + rest) == Some((bytes, 3 * |bytes|))
  {
    if bytes == [] {
      assert text + rest == rest;
    } else {
      hide Spells, HexValue, IsDigit, EscapeRun;
      FirstSpelled(text, bytes);
      SpelledTail(text, bytes);
      SpelledRun(text[3..], bytes[1..], rest);
      RunStep(text, rest, bytes[0], bytes[1..]);
      assert [bytes[0]] + bytes[1..] == bytes;
    }
  }

  lemma RunStep(text: string, rest: string, b: Utf8.Byte, more: seq<Utf8.Byte>)
    requires |text| >= 3 && text[0] == '%' && HexValue(text[1]) == Some(b / 16) && HexValue(text[2]) == Some(b % 16)
    requires EscapeRun(text[3..] + rest) == Some((more, 3 * |more|))
    ensures EscapeRun(text + rest) == Some(([b] + more, 3 * |more| + 3))
  {
    hide HexValue, EscapedByte;
    var all := text + rest;
    assert all == ['%', text[1], text[2]] + (text[3..] + rest);
    EscapeOf(text[1], text[2], b / 16, b % 16, text[3..] + rest);
  }

  lemma FirstSpelled(text: string, bytes: seq<Utf8.Byte>)
    requires Spells(text, bytes) && bytes != []
    ensures |text| >= 3 && text[0] == '%'
    ensures HexValue(text[1]) == Some(bytes[0] / 16) && HexValue(text[2]) == Some(bytes[0] % 16)
  {
    assert text[3 * 0] == '%' && IsDigit(text[3 * 0 + 1], bytes[0] / 16) && IsDigit(text[3 * 0 + 2], bytes[0] % 16);
    hide HexValue, IsDigit;
    DigitMeans(text[1], bytes[0] / 16);
    DigitMeans(text[2], bytes[0] % 16);
  }

  lemma SpelledTail(text: string, bytes: seq<Utf8.Byte>)
    requires Spells(text, bytes) && bytes != []
    ensures Spells(text[3..], bytes[1..])
  {
    forall k | 0 <= k < |bytes| - 1
      ensures && text[3..][3 * k] == '%' && IsDigit(text[3..][3 * k + 1], bytes[1..][k] / 16)
              && IsDigit(text[3..][3 * k + 2], bytes[1..][k] % 16)
    {
      assert text[3 * (k + 1)] == '%' && bytes[1..][k] == bytes[k + 1];
      assert text[3..][3 * k + 1] == text[3 * (k + 1) + 1] && text[3..][3 * k + 2] == text[3 * (k + 1) + 2];
    }
  }

  /** `+` turned into blanks. */
  function Blanked(s: string): string {
    seq(|s|, i requires 0 <= i < |s| => if s[i] == '+' then ' ' else s[i])
  }

  /** A run of escapes up to the next other character is decoded as one text. */
  lemma RunMeans(cs: Charset, text: string, bytes: seq<Utf8.Byte>, rest: string)
    requires bytes != [] && Spells(text, bytes) && (rest != "" ==> rest[0] != '%')
    ensures UrlDecode(cs, text + rest) == Prepend(cs.decode(bytes), UrlDecode(cs, rest))
  {
    SpelledRun(text, bytes, rest);
    assert text[3 * 0] == '%' && (text + rest)[0] == '%';
    assert (text + rest)[3 * |bytes|..] == rest;
    hide EscapeRun;
  }

  /** Other characters stay as they are, but for the blanks. */
  lemma {:induction false} PlainMeans(cs: Charset, plain: string, rest: string)
    requires '%' !in plain
    ensures UrlDecode(cs, plain + rest) == Prepend(Blanked(plain), UrlDecode(cs, rest))
  {
    if plain == "" {
      assert plain + rest == rest && Blanked(plain) == "";
      assert forall r: string :: "" + r == r;
    } else {
      var all := plain + rest;
      assert all[0] == plain[0] && plain[0] in plain && all[1..] == plain[1..] + rest;
      PlainMeans(cs, plain[1..], rest);
      var c := if plain[0] == '+' then ' ' else plain[0];
      assert Blanked(plain) == [c] + Blanked(plain[1..]);
      assert forall r: string :: [c] + (Blanked(plain[1..]) + r) == Blanked(plain) + r;
    }
  }

  // ---- spiderX ----

  /** `spiderX`: the parsed value is decoded a second time. */
  function SpiderX(params: map<string, string>, decode: Decoder): Option<string> {
    if "spx" in params then decode(params["spx"]) else Some("")
  }

  /** What a link that encodes spiderX once is read back as: its second decoding. */
  lemma SpiderXDecodedTwice(value: string, encode: string -> string, decode: Decoder)
    requires Inverts(decode, encode)
    ensures var params := ParseQuery(EncodeQuery([("spx", value)], encode), decode);
            params.Some? && SpiderX(params.value, decode) == decode(value)
  {
    QueryRoundTrip([("spx", value)], encode, decode);
    assert [("spx", value)][..0] == [];
  }

  /** So under any encoder that URLDecoder inverts it survives exactly when it has no `+`
      and no `%`. */
  lemma SpiderXSurvivesIff(value: string, encode: string -> string, cs: Charset)
    requires IsCharset(cs) && Inverts(s => UrlDecode(cs, s), encode)
    ensures var decode: Decoder := s => UrlDecode(cs, s);
            var params := ParseQuery(EncodeQuery([("spx", value)], encode), decode);
            params.Some? && (SpiderX(params.value, decode) == Some(value) <==> '+' !in value && '%' !in value)
  {
    SpiderXDecodedTwice(value, encode, s => UrlDecode(cs, s));
    DecodeFixedIff(cs, value);
  }

  /** A path with an escaped blank comes back with the blank itself, and one that ends in a
      bare `%` makes the whole link fail. */
  lemma SpiderXExamples(encode: string -> string, cs: Charset)
    requires IsCharset(cs) && Inverts(s => UrlDecode(cs, s), encode)
    ensures var decode: Decoder := s => UrlDecode(cs, s);
            var path, bare := ParseQuery(EncodeQuery([("spx", "/a%20b")], encode), decode),
                              ParseQuery(EncodeQuery([("spx", "/100%")], encode), decode);
            && path.Some? && SpiderX(path.value, decode) == Some("/a b")
            && bare.Some? && SpiderX(bare.value, decode) == None
  {
    SpiderXDecodedTwice("/a%20b", encode, s => UrlDecode(cs, s));
    SpiderXDecodedTwice("/100%", encode, s => UrlDecode(cs, s));
    EscapedBlank(cs);
    BarePercent(cs);
  }

  lemma EscapedBlank(cs: Charset)
    requires IsCharset(cs)
    ensures UrlDecode(cs, "/a%20b") == Some("/a b")
  {
    var s := "/a%20b";
    assert s[1..] == "a%20b" && s[1..][1..] == "%20b" && "%20b"[3..] == "b" && "b"[1..] == "";
    assert EscapedByte("%20b") == Some(32);
    assert EscapeRun("%20b") == Some(([32], 3)) by { assert EscapeRun("b") == Some(([], 0)); assert [32] + [] == [32]; }
    assert cs.decode([32]) == " ";
    assert "b" + "" == "b" && " " + "b" == " b" && "a" + " b" == "a b" && "/" + "a b" == "/a b";
    assert UrlDecode(cs, "b") == Some("b");
    assert UrlDecode(cs, "%20b") == Some(" b");
    assert UrlDecode(cs, "a%20b") == Some("a b");
  }

  lemma BarePercent(cs: Charset)
    ensures UrlDecode(cs, "/100%") == None
  {
    assert "/100%"[1..] == "100%" && "100%"[1..] == "00%" && "00%"[1..] == "0%" && "0%"[1..] == "%";
    assert EscapedByte("%") == None;
    assert UrlDecode(cs, "%") == None;
    assert UrlDecode(cs, "0%") == None;
    assert UrlDecode(cs, "00%") == None;
    assert UrlDecode(cs, "100%") == None;
  }
}
