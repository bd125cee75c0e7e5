/**
 * Percent-encoding of text the way Python's `urllib.parse.quote` does it with its
 * default safe set "/": the text is encoded as UTF-8 and every byte that is
 * neither an unreserved character (section 2.3 of RFC 3986) nor '/' is written
 * as '%' followed by two upper-case hexadecimal digits (section 2.1 of RFC 3986).
 *
 * The partner of `Quote` is `Unquote`: percent-decoding followed by strict
 * UTF-8 decoding, with the round trip `Unquote(Quote(s)) == Some(s)`.
 */
module UrlEncoding {
  import opened Wrappers

  type byte = x: int | 0 <= x < 256

  // ---------------------------------------------------------------- UTF-8

  /** The UTF-8 encoding of one Unicode scalar value (RFC 3629, section 3). */
  function EncodeChar(c: char): (bs: seq<byte>)
    ensures 1 <= |bs| <= 4
    ensures |bs| == 1 <==> c as int < 0x80
    ensures |bs| == 1 ==> bs[0] == c as int
  {
    var v := c as int;
    if v < 0x80 then [v]
    else if v < 0x800 then [0xC0 + v / 64, 0x80 + v % 64]
    else if v < 0x10000 then [0xE0 + v / 4096, 0x80 + (v / 64) % 64, 0x80 + v % 64]
    else [0xF0 + v / 262144, 0x80 + (v / 4096) % 64, 0x80 + (v / 64) % 64, 0x80 + v % 64]
  }

  function EncodeUtf8(s: string): seq<byte>
  {
    if s == [] then [] else EncodeChar(s[0]) + EncodeUtf8(s[1..])
  }

  predicate IsContinuation(x: byte)
  {
    0x80 <= x < 0xC0
  }

  /** Decodes the first scalar value of `b`, with the number of bytes it took;
      `None` for a malformed, overlong or surrogate sequence. */
  function DecodeFirst(b: seq<byte>): (r: Option<(char, nat)>)
    requires |b| > 0
    ensures r.Some? ==> 1 <= r.value.1 <= |b|
  {
    var b0, b1, b2, b3 := b[0] as int, if |b| > 1 then b[1] as int else 0,
                          if |b| > 2 then b[2] as int else 0, if |b| > 3 then b[3] as int else 0;
    if b0 < 0x80 then
      Some((b0 as char, 1))
    else if 0xC0 <= b0 < 0xE0 && |b| >= 2 && IsContinuation(b[1]) then
      var v := (b0 - 0xC0) * 64 + (b1 - 0x80);
      if 0x80 <= v then Some((v as char, 2)) else None
    else if 0xE0 <= b0 < 0xF0 && |b| >= 3 && IsContinuation(b[1]) && IsContinuation(b[2]) then
      var v := (b0 - 0xE0) * 4096 + (b1 - 0x80) * 64 + (b2 - 0x80);
      if 0x800 <= v && !(0xD800 <= v < 0xE000) then Some((v as char, 3)) else None
    else if 0xF0 <= b0 < 0xF8 && |b| >= 4 && IsContinuation(b[1]) && IsContinuation(b[2]) && IsContinuation(b[3]) then
      var v := (b0 - 0xF0) * 262144 + (b1 - 0x80) * 4096 + (b2 - 0x80) * 64 + (b3 - 0x80);
      if 0x10000 <= v < 0x110000 then Some((v as char, 4)) else None
    else
      None
  }

  /** Strict UTF-8 decoding: `None` when `b` is not well-formed UTF-8. */
  function DecodeUtf8(b: seq<byte>): Option<string>
    decreases |b|
  {
    if |b| == 0 then Some([])
    else match DecodeFirst(b)
      case None => None
      case Some((c, n)) =>
        match DecodeUtf8(b[n..])
        case None => None
        case Some(rest) => Some([c] + rest)
  }

  lemma DivMod64(v: int)
    requires 0 <= v
    ensures (v / 64) * 64 + v % 64 == v
    ensures 0 <= v % 64 < 64
  {
  }

  lemma DivMod4096(v: int)
    requires 0 <= v
    ensures (v / 4096) * 4096 + ((v / 64) % 64) * 64 + v % 64 == v
    ensures v / 4096 == (v / 64) / 64
  {
    DivMod64(v);
    DivMod64(v / 64);
  }

  lemma DivMod262144(v: int)
    requires 0 <= v
    ensures (v / 262144) * 262144 + ((v / 4096) % 64) * 4096 + ((v / 64) % 64) * 64 + v % 64 == v
  {
    DivMod4096(v);
    DivMod64(v / 4096);
    assert v / 262144 == (v / 4096) / 64;
  }

  lemma DecodeFirstEncodeChar(c: char, rest: seq<byte>)
    ensures DecodeFirst(EncodeChar(c) + rest) == Some((c, |EncodeChar(c)|))
  {
    var v := c as int;
    var e := EncodeChar(c);
    var b := e + rest;
    assert b[..|e|] == e;
    if v < 0x80 {
    } else if v < 0x800 {
      DivMod64(v);
      assert b[0] as int == 0xC0 + v / 64 && b[1] as int == 0x80 + v % 64;
    } else if v < 0x10000 {
      DivMod4096(v);
      assert b[0] as int == 0xE0 + v / 4096 && b[1] as int == 0x80 + (v / 64) % 64 && b[2] as int == 0x80 + v % 64;
    } else {
      DivMod262144(v);
      assert b[0] as int == 0xF0 + v / 262144 && b[1] as int == 0x80 + (v / 4096) % 64;
      assert b[2] as int == 0x80 + (v / 64) % 64 && b[3] as int == 0x80 + v % 64;
    }
  }

  /** Decoding undoes encoding. */
  lemma {:induction false} Utf8RoundTrip(s: string)
    ensures DecodeUtf8(EncodeUtf8(s)) == Some(s)
  {
    if s != [] {
      var e := EncodeChar(s[0]);
      var rest := EncodeUtf8(s[1..]);
      DecodeFirstEncodeChar(s[0], rest);
      assert (e + rest)[|e|..] == rest;
      Utf8RoundTrip(s[1..]);
      assert [s[0]] + s[1..] == s;
    }
  }

  // ------------------------------------------------------ percent-encoding

  /** Unreserved characters, section 2.3 of RFC 3986. */
  predicate IsUnreserved(c: char)
  {
    'A' <= c <= 'Z' || 'a' <= c <= 'z' || '0' <= c <= '9' || c == '-' || c == '.' || c == '_' || c == '~'
  }

  /** Characters `quote` leaves as they are: the unreserved ones and its default safe '/'. */
  predicate IsSafe(c: char)
  {
    IsUnreserved(c) || c == '/'
  }

  predicate IsUpperHex(c: char)
  {
    '0' <= c <= '9' || 'A' <= c <= 'F'
  }

  predicate IsHex(c: char)
  {
    IsUpperHex(c) || 'a' <= c <= 'f'
  }

  function HexDigit(d: int): (c: char)
    requires 0 <= d < 16
    ensures IsUpperHex(c)
  {
    if d < 10 then ('0' as int + d) as char else ('A' as int + d - 10) as char
  }

  function HexValue(c: char): (d: int)
    requires IsHex(c)
    ensures 0 <= d < 16
  {
    if '0' <= c <= '9' then c as int - '0' as int
    else if 'A' <= c <= 'F' then c as int - 'A' as int + 10
    else c as int - 'a' as int + 10
  }

  /** The "%XX" escape of one byte, upper-case hexadecimal. */
  function Escape(x: byte): string
  {
    ['%', HexDigit(x / 16), HexDigit(x % 16)]
  }

  function EscapeAll(bs: seq<byte>): (t: string)
    ensures |t| == 3 * |bs|
  {
    if bs == [] then [] else Escape(bs[0]) + EscapeAll(bs[1..])
  }

  function QuoteChar(c: char): (t: string)
    ensures IsSafe(c) ==> t == [c]
    ensures !IsSafe(c) ==> 3 <= |t| <= 12 && t[0] == '%'
  {
    if IsSafe(c) then [c] else EscapeAll(EncodeChar(c))
  }

  /** `urllib.parse.quote(s)`, safe set "/": each safe character stays, each
      other one becomes the escapes of its 1 to 4 UTF-8 bytes. A text is left
      unchanged exactly when all its characters are safe. */
  function Quote(s: string): (r: string)
    ensures |s| <= |r| <= 12 * |s|
    ensures |r| == |s| <==> forall i :: 0 <= i < |s| ==> IsSafe(s[i])
    ensures (forall i :: 0 <= i < |s| ==> IsSafe(s[i])) ==> r == s
  {
    if s == [] then [] else QuoteChar(s[0]) + Quote(s[1..])
  }

  /** Percent-decoding to bytes: "%XX" (either case) gives one byte, any other
      character its UTF-8 bytes, as `urllib.parse.unquote` does before decoding. */
  function PercentDecode(t: string): seq<byte>
    decreases |t|
  {
    if t == [] then []
    else if t[0] == '%' && |t| >= 3 && IsHex(t[1]) && IsHex(t[2]) then
      [HexValue(t[1]) * 16 + HexValue(t[2])] + PercentDecode(t[3..])
    else
      EncodeChar(t[0]) + PercentDecode(t[1..])
  }

  /** Percent-decoding followed by strict UTF-8 decoding. */
  function Unquote(t: string): Option<string>
  {
    DecodeUtf8(PercentDecode(t))
  }

  /** Text made only of unreserved characters and well-formed "%XX" escapes. */
  predicate IsEscapedText(t: string)
    decreases |t|
  {
    if t == [] then true
    else if IsUnreserved(t[0]) then IsEscapedText(t[1..])
    else t[0] == '%' && |t| >= 3 && IsUpperHex(t[1]) && IsUpperHex(t[2]) && IsEscapedText(t[3..])
  }

  lemma HexRoundTrip(d: int)
    requires 0 <= d < 16
    ensures HexValue(HexDigit(d)) == d
  {
  }

  lemma DecodeEscape(x: byte, rest: string)
    ensures PercentDecode(Escape(x) + rest) == [x] + PercentDecode(rest)
  {
    var t := Escape(x) + rest;
    HexRoundTrip(x / 16);
    HexRoundTrip(x % 16);
    assert t[0] == '%' && t[1] == HexDigit(x / 16) && t[2] == HexDigit(x % 16);
    assert t[3..] == rest;
  }

  lemma {:induction false} DecodeEscapeAll(bs: seq<byte>, rest: string)
    ensures PercentDecode(EscapeAll(bs) + rest) == bs + PercentDecode(rest)
  {
    if bs == [] {
      assert EscapeAll(bs) + rest == rest;
    } else {
      calc {
        PercentDecode(EscapeAll(bs) + rest);
        { assert EscapeAll(bs) + rest == Escape(bs[0]) + (EscapeAll(bs[1..]) + rest); }
        PercentDecode(Escape(bs[0]) + (EscapeAll(bs[1..]) + rest));
        { DecodeEscape(bs[0], EscapeAll(bs[1..]) + rest); }
        [bs[0]] + PercentDecode(EscapeAll(bs[1..]) + rest);
        { DecodeEscapeAll(bs[1..], rest); }
        [bs[0]] + (bs[1..] + PercentDecode(rest));
        { assert [bs[0]] + bs[1..] == bs; }
        bs + PercentDecode(rest);
      }
    }
  }

  lemma DecodeQuoteChar(c: char, rest: string)
    ensures PercentDecode(QuoteChar(c) + rest) == EncodeChar(c) + PercentDecode(rest)
  {
    if IsSafe(c) {
      assert ([c] + rest)[1..] == rest;
    } else {
      DecodeEscapeAll(EncodeChar(c), rest);
    }
  }

  /** Percent-decoding the quoted text gives back the UTF-8 bytes of the original. */
  lemma {:induction false} PercentDecodeQuote(s: string)
    ensures PercentDecode(Quote(s)) == EncodeUtf8(s)
  {
    if s != [] {
      DecodeQuoteChar(s[0], Quote(s[1..]));
      PercentDecodeQuote(s[1..]);
    }
  }

  /** The round trip: unquoting the quoted text gives back the text. */
  lemma UnquoteQuote(s: string)
    ensures Unquote(Quote(s)) == Some(s)
  {
    PercentDecodeQuote(s);
    Utf8RoundTrip(s);
  }

  lemma EscapedTextEscape(x: byte, rest: string)
    requires IsEscapedText(rest)
    ensures IsEscapedText(Escape(x) + rest)
  {
    var t := Escape(x) + rest;
    assert t[0] == '%' && IsUpperHex(t[1]) && IsUpperHex(t[2]);
    assert t[3..] == rest;
  }

  lemma {:induction false} EscapedTextEscapeAll(bs: seq<byte>, rest: string)
    requires IsEscapedText(rest)
    ensures IsEscapedText(EscapeAll(bs) + rest)
  {
    if bs == [] {
      assert EscapeAll(bs) + rest == rest;
    } else {
      assert EscapeAll(bs) + rest == Escape(bs[0]) + (EscapeAll(bs[1..]) + rest);
      EscapedTextEscapeAll(bs[1..], rest);
      EscapedTextEscape(bs[0], EscapeAll(bs[1..]) + rest);
    }
  }

  /** Text without '/' quotes to unreserved characters and "%XX" escapes only. */
  lemma {:induction false} QuoteIsEscapedText(s: string)
    requires '/' !in s
    ensures IsEscapedText(Quote(s))
  {
    if s != [] {
      assert '/' !in s[1..] by { assert forall i :: 0 <= i < |s[1..]| ==> s[1..][i] == s[i + 1]; }
      QuoteIsEscapedText(s[1..]);
      if IsSafe(s[0]) {
        assert ([s[0]] + Quote(s[1..]))[1..] == Quote(s[1..]);
      } else {
        EscapedTextEscapeAll(EncodeChar(s[0]), Quote(s[1..]));
      }
    }
  }

  /** Every character of escaped text is unreserved or the escape marker '%';
      in particular it holds no space and no '/'. */
  lemma {:induction false} EscapedTextChars(t: string)
    requires IsEscapedText(t)
    ensures forall i :: 0 <= i < |t| ==> IsUnreserved(t[i]) || t[i] == '%'
    ensures ' ' !in t && '/' !in t
    decreases |t|
  {
    if t != [] {
      if IsUnreserved(t[0]) {
        EscapedTextChars(t[1..]);
        assert forall i :: 1 <= i < |t| ==> t[i] == t[1..][i - 1];
      } else {
        EscapedTextChars(t[3..]);
        assert forall i :: 3 <= i < |t| ==> t[i] == t[3..][i - 3];
      }
    }
  }

  lemma {:induction false} QuoteAppend(a: string, b: string)
    ensures Quote(a + b) == Quote(a) + Quote(b)
  {
    if a != [] {
      assert (a + b)[0] == a[0] && (a + b)[1..] == a[1..] + b;
      QuoteAppend(a[1..], b);
    } else {
      assert a + b == b;
    }
  }

  /** Quoting leaves text of unreserved characters unchanged. */
  lemma {:induction false} QuoteUnreserved(s: string)
    requires forall i :: 0 <= i < |s| ==> IsUnreserved(s[i])
    ensures Quote(s) == s
  {
    if s != [] {
      QuoteUnreserved(s[1..]);
      assert [s[0]] + s[1..] == s;
    }
  }
}
