/** `urllib.parse.quote` with its default `safe='/'`: the text is encoded as
    UTF-8 and every byte outside the unreserved set of section 2.3 of RFC 3986
    (letters, digits, `-`, `.`, `_`, `~`) and other than `/` is written as a
    `%XX` triple with upper-case hexadecimal digits (section 2.1 of RFC 3986).
    The decoder is the partner of the encoder: decoding undoes encoding. */
module PercentEncoding {
  import opened Wrappers

  type Byte = b: int | 0 <= b < 256

  /** A Unicode scalar value: a code point that is not a surrogate. */
  predicate IsScalarValue(n: int)
  {
    (0 <= n < 0xD800) || (0xE000 <= n < 0x11_0000)
  }

  // ---------------------------------------------------------------- UTF-8

  /** The UTF-8 encoding of one character (section 3 of RFC 3629). */
  function CharBytes(c: char): (r: seq<Byte>)
    ensures 1 <= |r| <= 4
    ensures (c as int < 0x80) <==> |r| == 1
    ensures |r| == 1 ==> r[0] == c as int
  {
    var n := c as int;
    if n < 0x80 then [n]
    else if n < 0x800 then [0xC0 + n / 64, 0x80 + n % 64]
    else if n < 0x1_0000 then [0xE0 + n / 4096, 0x80 + (n / 64) % 64, 0x80 + n % 64]
    else [0xF0 + n / 262144, 0x80 + (n / 4096) % 64, 0x80 + (n / 64) % 64, 0x80 + n % 64]
  }

  /** The UTF-8 encoding of a string (Python's `s.encode('utf-8')`). */
  function Utf8Encode(s: string): seq<Byte>
  {
    if s == [] then [] else CharBytes(s[0]) + Utf8Encode(s[1..])
  }

  predicate IsContinuation(b: Byte)
  {
    0x80 <= b < 0xC0
  }

  /** Decodes the first character of `b`: the character and the number of
      bytes it takes, or None when `b` does not start with a well-formed
      UTF-8 sequence (bad lead byte, missing continuation byte, overlong form,
      surrogate or out-of-range code point). */
  function DecodeChar(b: seq<Byte>): (r: Option<(char, nat)>)
    ensures r.Some? ==> 1 <= r.value.1 <= |b|
  {
    if b == [] then None
    else if b[0] < 0x80 then Some((b[0] as char, 1))
    else if 0xC0 <= b[0] < 0xE0 && |b| >= 2 && IsContinuation(b[1]) then
      var n := (b[0] as int - 0xC0) * 64 + (b[1] as int - 0x80);
      if 0x80 <= n then Some((n as char, 2)) else None
    else if 0xE0 <= b[0] < 0xF0 && |b| >= 3 && IsContinuation(b[1]) && IsContinuation(b[2]) then
      var n := (b[0] as int - 0xE0) * 4096 + (b[1] as int - 0x80) * 64 + (b[2] as int - 0x80);
      if 0x800 <= n && IsScalarValue(n) then Some((n as char, 3)) else None
    else if 0xF0 <= b[0] < 0xF8 && |b| >= 4 && IsContinuation(b[1]) && IsContinuation(b[2])
            && IsContinuation(b[3]) then
      var n := (b[0] as int - 0xF0) * 262144 + (b[1] as int - 0x80) * 4096 + (b[2] as int - 0x80) * 64 + (b[3] as int - 0x80);
      if 0x1_0000 <= n && IsScalarValue(n) then Some((n as char, 4)) else None
    else None
  }

  /** Strict UTF-8 decoding: None when any part of `b` is malformed. */
  function Utf8Decode(b: seq<Byte>): Option<string>
    decreases |b|
  {
    if b == [] then Some("")
    else match DecodeChar(b)
      case None => None
      case Some((c, k)) =>
        match Utf8Decode(b[k..])
        case None => None
        case Some(rest) => Some([c] + rest)
  }

  /** Decoding the bytes of one character, whatever follows them, gives back
      that character and the length of its encoding. */
  lemma DecodeCharBytes(c: char, rest: seq<Byte>)
    ensures DecodeChar(CharBytes(c) + rest) == Some((c, |CharBytes(c)|))
  {
    var n := c as int;
    if n < 0x80 {
    } else if n < 0x800 {
      DecodeTwoBytes(c, rest);
    } else if n < 0x1_0000 {
      DecodeThreeBytes(c, rest);
    } else {
      DecodeFourBytes(c, rest);
    }
  }

  lemma DecodeTwoBytes(c: char, rest: seq<Byte>)
    requires 0x80 <= c as int < 0x800
    ensures DecodeChar(CharBytes(c) + rest) == Some((c, 2))
  {
    var n := c as int;
    var b := CharBytes(c) + rest;
    assert b[0] == 0xC0 + n / 64 && b[1] == 0x80 + n % 64;
    assert (b[0] as int - 0xC0) * 64 + (b[1] as int - 0x80) == n;
  }

  lemma DecodeThreeBytes(c: char, rest: seq<Byte>)
    requires 0x800 <= c as int < 0x1_0000
    ensures DecodeChar(CharBytes(c) + rest) == Some((c, 3))
  {
    var n := c as int;
    var b := CharBytes(c) + rest;
    assert b[0] == 0xE0 + n / 4096 && b[1] == 0x80 + (n / 64) % 64 && b[2] == 0x80 + n % 64;
    assert n / 64 == (n / 4096) * 64 + (n / 64) % 64;
    assert (b[0] as int - 0xE0) * 4096 + (b[1] as int - 0x80) * 64 + (b[2] as int - 0x80) == n;
  }

  lemma DecodeFourBytes(c: char, rest: seq<Byte>)
    requires 0x1_0000 <= c as int
    ensures DecodeChar(CharBytes(c) + rest) == Some((c, 4))
  {
    var n := c as int;
    var b := CharBytes(c) + rest;
    assert b[0] == 0xF0 + n / 262144 && b[1] == 0x80 + (n / 4096) % 64
        && b[2] == 0x80 + (n / 64) % 64 && b[3] == 0x80 + n % 64;
    assert n / 4096 == (n / 262144) * 64 + (n / 4096) % 64;
    assert n / 64 == (n / 4096) * 64 + (n / 64) % 64;
    assert (b[0] as int - 0xF0) * 262144 + (b[1] as int - 0x80) * 4096 + (b[2] as int - 0x80) * 64 + (b[3] as int - 0x80) == n;
  }

  /** UTF-8 decoding undoes UTF-8 encoding. */
  lemma {:induction false} Utf8RoundTrip(s: string)
    ensures Utf8Decode(Utf8Encode(s)) == Some(s)
  {
    if s != [] {
      var b := Utf8Encode(s);
      var k := |CharBytes(s[0])|;
      DecodeCharBytes(s[0], Utf8Encode(s[1..]));
      assert b[k..] == Utf8Encode(s[1..]);
      Utf8RoundTrip(s[1..]);
      assert [s[0]] + s[1..] == s;
    }
  }

  // ------------------------------------------------------- percent-encoding

  /** The characters that may stand unescaped in a URI: the unreserved and
      reserved characters of sections 2.2 and 2.3 of RFC 3986, and the `%` of
      a percent-encoded triple. */
  predicate IsUriChar(c: char)
  {
    ('A' <= c <= 'Z') || ('a' <= c <= 'z') || ('0' <= c <= '9') ||
    c == '-' || c == '.' || c == '_' || c == '~' ||
    c == ':' || c == '/' || c == '?' || c == '#' || c == '[' || c == ']' || c == '@' ||
    c == '!' || c == '$' || c == '&' || c == '\'' || c == '(' || c == ')' ||
    c == '*' || c == '+' || c == ',' || c == ';' || c == '=' || c == '%'
  }

  predicate IsUriText(s: string)
  {
    forall i :: 0 <= i < |s| ==> IsUriChar(s[i])
  }

  /** Text made only of URI characters. */
  type UriText = s: string | IsUriText(s)

  /** The unreserved characters of section 2.3 of RFC 3986, as bytes. */
  predicate IsUnreserved(b: Byte)
  {
    ('A' as int <= b <= 'Z' as int) || ('a' as int <= b <= 'z' as int) ||
    ('0' as int <= b <= '9' as int) || b == '-' as int || b == '.' as int ||
    b == '_' as int || b == '~' as int
  }

  /** The bytes `quote` leaves as they are: the unreserved ones and `/`. */
  predicate IsSafe(b: Byte)
  {
    IsUnreserved(b) || b == '/' as int
  }

  /** The upper-case hexadecimal digit for `d`. */
  function HexDigit(d: int): (c: char)
    requires 0 <= d < 16
  {
    if d < 10 then ('0' as int + d) as char else ('A' as int + d - 10) as char
  }

  predicate IsUpperHexDigit(c: char)
  {
    ('0' <= c <= '9') || ('A' <= c <= 'F')
  }

  /** The value of a hexadecimal digit of either case (section 2.1 of RFC 3986
      makes the two cases equivalent). */
  function HexValue(c: char): (r: Option<int>)
    ensures r.Some? ==> 0 <= r.value < 16
  {
    if '0' <= c <= '9' then Some(c as int - '0' as int)
    else if 'A' <= c <= 'F' then Some(c as int - 'A' as int + 10)
    else if 'a' <= c <= 'f' then Some(c as int - 'a' as int + 10)
    else None
  }

  /** How one byte is written: itself when safe, otherwise `%` and two
      upper-case hexadecimal digits. */
  function EscapeByte(b: Byte): (r: string)
    ensures IsSafe(b) ==> r == [b as char]
    ensures !IsSafe(b) ==> |r| == 3 && r[0] == '%'
                           && HexValue(r[1]) == Some(b / 16) && HexValue(r[2]) == Some(b % 16)
  {
    if IsSafe(b) then [b as char] else ['%', HexDigit(b / 16), HexDigit(b % 16)]
  }

  /** `urllib.parse.quote_from_bytes(bs, safe='/')`. */
  function Quote(bs: seq<Byte>): string
  {
    if bs == [] then "" else EscapeByte(bs[0]) + Quote(bs[1..])
  }

  /** `urllib.parse.quote(s, safe='/')` on a text string. */
  function QuoteText(s: string): string
  {
    Quote(Utf8Encode(s))
  }

  /** Percent-decoding: a `%` must be followed by two hexadecimal digits; any
      other character must be ASCII and stands for itself. None when `s` is
      malformed. */
  function Unquote(s: string): Option<seq<Byte>>
    decreases |s|
  {
    if s == [] then Some([])
    else if s[0] == '%' then
      if |s| >= 3 && HexValue(s[1]).Some? && HexValue(s[2]).Some? then
        match Unquote(s[3..])
        case None => None
        case Some(rest) => Some([HexValue(s[1]).value * 16 + HexValue(s[2]).value] + rest)
      else None
    else if s[0] as int < 0x80 then
      match Unquote(s[1..])
      case None => None
      case Some(rest) => Some([s[0] as int] + rest)
    else None
  }

  /** Percent-decoding followed by UTF-8 decoding: the text a query value
      stands for. */
  function UnquoteText(s: string): Option<string>
  {
    match Unquote(s)
    case None => None
    case Some(b) => Utf8Decode(b)
  }

  /** The shape of `quote`'s output: safe characters and `%XX` triples with
      upper-case hexadecimal digits, nothing else. */
  predicate IsPercentEncoded(s: string)
    decreases |s|
  {
    if s == [] then true
    else if s[0] == '%' then
      |s| >= 3 && IsUpperHexDigit(s[1]) && IsUpperHexDigit(s[2]) && IsPercentEncoded(s[3..])
    else s[0] as int < 256 && IsSafe(s[0] as int) && IsPercentEncoded(s[1..])
  }

  /** Decoding the encoding of one byte, whatever follows it. */
  lemma UnquoteEscapeByte(b: Byte, rest: string)
    ensures Unquote(EscapeByte(b) + rest) ==
            match Unquote(rest) case None => None case Some(r) => Some([b] + r)
  {
    var s := EscapeByte(b) + rest;
    if IsSafe(b) {
      assert s[0] == b as char && s[1..] == rest;
    } else {
      assert s[0] == '%' && s[3..] == rest;
      assert HexValue(s[1]).value * 16 + HexValue(s[2]).value == b;
    }
  }

  /** Percent-decoding undoes `quote`. */
  lemma {:induction false} UnquoteQuote(bs: seq<Byte>)
    ensures Unquote(Quote(bs)) == Some(bs)
  {
    if bs != [] {
      UnquoteEscapeByte(bs[0], Quote(bs[1..]));
      UnquoteQuote(bs[1..]);
      assert [bs[0]] + bs[1..] == bs;
    }
  }

  /** Decoding `quote(s)` gives back exactly the text `s`. */
  lemma QuoteTextRoundTrip(s: string)
    ensures UnquoteText(QuoteText(s)) == Some(s)
  {
    UnquoteQuote(Utf8Encode(s));
    Utf8RoundTrip(s);
  }

  /** Two texts with the same quoted form are the same text. */
  lemma QuoteTextInjective(s: string, t: string)
    requires QuoteText(s) == QuoteText(t)
    ensures s == t
  {
    QuoteTextRoundTrip(s);
    QuoteTextRoundTrip(t);
  }

  /** `quote` output holds only safe characters and `%XX` triples. */
  lemma {:induction false} QuoteIsPercentEncoded(bs: seq<Byte>)
    ensures IsPercentEncoded(Quote(bs))
  {
    if bs != [] {
      var e := EscapeByte(bs[0]);
      var s := Quote(bs);
      QuoteIsPercentEncoded(bs[1..]);
      if IsSafe(bs[0]) {
        assert s[1..] == Quote(bs[1..]);
      } else {
        assert s[3..] == Quote(bs[1..]);
      }
    }
  }

  /** A percent-encoded string contains only safe characters, `%` and
      upper-case hexadecimal digits; in particular no space and no line feed. */
  lemma {:induction false} PercentEncodedCharacters(s: string)
    requires IsPercentEncoded(s)
    ensures forall i :: 0 <= i < |s| ==>
      s[i] == '%' || IsUpperHexDigit(s[i]) || (s[i] as int < 256 && IsSafe(s[i] as int))
    decreases |s|
  {
    if s != [] {
      var k := if s[0] == '%' then 3 else 1;
      PercentEncodedCharacters(s[k..]);
      assert forall i :: k <= i < |s| ==> s[i] == s[k..][i - k];
    }
  }

  /** `quote` output consists of URI characters only. */
  lemma QuoteIsUriText(bs: seq<Byte>)
    ensures IsUriText(Quote(bs))
  {
    QuoteIsPercentEncoded(bs);
    PercentEncodedCharacters(Quote(bs));
  }
}
