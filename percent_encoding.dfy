/**
 * Percent-encoding of query arguments (section 2.1 of RFC 3986).
 *
 * The encoder keeps the characters a URL query may carry literally, except
 * `&`, and writes every other byte of the UTF-8 form as `%` followed by two
 * upper-case hexadecimal digits.  Removing `&` from the kept set means caller
 * text can never introduce a field delimiter into the query.
 */
module PercentEncoding {
  import opened Wrappers
  import opened Utf16

  /**
   * The characters written literally: the unreserved characters, the
   * sub-delimiters other than `&`, and `:`, `@`, `/` and `?` (the `query`
   * production of section 3.4 of RFC 3986, less `&`).
   */
  predicate IsQueryArgumentAllowed(c: char): (allowed: bool)
    ensures allowed ==> c < 0x80 as char && c != '&' && c != '%' && c != '#'
  {
    || ('a' <= c <= 'z') || ('A' <= c <= 'Z') || ('0' <= c <= '9')
    || c == '-' || c == '.' || c == '_' || c == '~'
    || c == '!' || c == '$' || c == '\'' || c == '(' || c == ')'
    || c == '*' || c == '+' || c == ',' || c == ';' || c == '='
    || c == ':' || c == '@' || c == '/' || c == '?'
  }

  lemma DelimitersAreNotAllowed()
    ensures !IsQueryArgumentAllowed('&') && !IsQueryArgumentAllowed('%')
  {
  }

  const HexDigits: string := "0123456789ABCDEF"

  function HexDigit(n: int): (c: char)
    requires 0 <= n < 16
    ensures IsQueryArgumentAllowed(c) && IsHexDigit(c) && HexValue(c) == n
    ensures '0' <= c <= '9' || 'A' <= c <= 'F'
  {
    HexDigits[n]
  }

  predicate IsHexDigit(c: char) {
    ('0' <= c <= '9') || ('A' <= c <= 'F') || ('a' <= c <= 'f')
  }

  function HexValue(c: char): (n: int)
    requires IsHexDigit(c)
    ensures 0 <= n < 16
  {
    if '0' <= c <= '9' then c as int - '0' as int
    else if 'A' <= c <= 'F' then c as int - 'A' as int + 10
    else c as int - 'a' as int + 10
  }

  /** A byte, or an ASCII code unit, that is written as itself. */
  predicate IsLiteral(u: int) {
    0 <= u < 0x80 && IsQueryArgumentAllowed(u as char)
  }

  /** One byte as written: itself when literal, otherwise `%` and two upper-case hex digits. */
  function EncodeByte(b: Byte): (r: string)
    ensures IsLiteral(b) ==> r == [b as char]
    ensures !IsLiteral(b) ==>
      |r| == 3 && r[0] == '%' && IsHexDigit(r[1]) && IsHexDigit(r[2]) && 16 * HexValue(r[1]) + HexValue(r[2]) == b
  {
    if IsLiteral(b) then [b as char] else ['%', HexDigit(b / 16), HexDigit(b % 16)]
  }

  /** Percent-encoding of a byte sequence: no `&`, only allowed characters and `%`. */
  function EncodeBytes(bs: seq<Byte>): (r: string)
    ensures forall i :: 0 <= i < |r| ==> IsQueryArgumentAllowed(r[i]) || r[i] == '%'
    ensures '&' !in r
  {
    if bs == [] then "" else EncodeByte(bs[0]) + EncodeBytes(bs[1..])
  }

  /** Percent-decoding (section 2.1 of RFC 3986); `None` on a malformed argument. */
  function PercentDecode(s: string): Option<seq<Byte>>
    decreases |s|
  {
    if s == [] then
      Some([])
    else if s[0] == '%' then
      if 3 <= |s| && IsHexDigit(s[1]) && IsHexDigit(s[2]) then
        var rest :- PercentDecode(s[3..]);
        Some([HexValue(s[1]) * 16 + HexValue(s[2])] + rest)
      else
        None
    else if IsQueryArgumentAllowed(s[0]) then
      var rest :- PercentDecode(s[1..]);
      Some([s[0] as int] + rest)
    else
      None
  }

  /** Percent-decoding undoes percent-encoding. */
  lemma {:induction false} DecodeEncodeBytes(bs: seq<Byte>)
    ensures PercentDecode(EncodeBytes(bs)) == Some(bs)
  {
    if bs != [] {
      DecodeEncodeBytes(bs[1..]);
      DecodeEncodedByte(bs[0], EncodeBytes(bs[1..]), bs[1..]);
      assert [bs[0]] + bs[1..] == bs;
    }
  }

  /** Decoding one encoded byte followed by the encoding of the rest. */
  lemma DecodeEncodedByte(b: Byte, rest: string, restBytes: seq<Byte>)
    requires PercentDecode(rest) == Some(restBytes)
    ensures PercentDecode(EncodeByte(b) + rest) == Some([b] + restBytes)
  {
    var s := EncodeByte(b) + rest;
    if IsLiteral(b) {
      assert s[0] == b as char && s[1..] == rest;
      DelimitersAreNotAllowed();
    } else {
      assert s[..3] == ['%', HexDigit(b / 16), HexDigit(b % 16)];
      assert s[3..] == rest;
    }
  }

  /** Bytes that are all literal are written as the same characters. */
  lemma {:induction false} LiteralBytesPassThrough(bs: seq<Byte>)
    requires forall i :: 0 <= i < |bs| ==> IsLiteral(bs[i])
    ensures |EncodeBytes(bs)| == |bs|
    ensures forall i :: 0 <= i < |bs| ==> EncodeBytes(bs)[i] == bs[i] as char
  {
    if bs != [] {
      LiteralBytesPassThrough(bs[1..]);
    }
  }

  /**
   * String.queryArgumentEncodedString: the percent-encoded UTF-8 form of the
   * text, or `None` when the text has no UTF-8 form.
   */
  function QueryArgumentEncodedString(t: Text): (r: Option<string>)
    ensures r.None? <==> Unencodable(t)
    ensures r.Some? ==> '&' !in r.value
  {
    Utf8OfFailsIffUnencodable(t);
    match Utf8Of(t)
    case None => None
    case Some(bs) => Some(EncodeBytes(bs))
  }

  /**
   * Reading an encoded argument back: percent-decoding gives the UTF-8 form
   * of the text, and reading that as UTF-8 gives the text itself.
   */
  lemma QueryArgumentRoundTrip(t: Text)
    ensures QueryArgumentEncodedString(t).Some? ==>
      && PercentDecode(QueryArgumentEncodedString(t).value) == Utf8Of(t)
      && DecodeQueryArgument(QueryArgumentEncodedString(t).value) == Some(t)
  {
    if QueryArgumentEncodedString(t).Some? {
      DecodeEncodeBytes(Utf8Of(t).value);
      Utf8RoundTrip(t);
    }
  }

  /** What a consumer recovers from a query argument: percent-decode, then read the bytes as UTF-8. */
  function DecodeQueryArgument(s: string): Option<Text> {
    var bytes :- PercentDecode(s);
    Utf16OfUtf8(bytes)
  }

  /** ASCII text converts to UTF-8 byte for byte. */
  lemma {:induction false} AsciiUtf8(t: Text)
    requires forall i :: 0 <= i < |t| ==> t[i] < 0x80
    ensures Utf8Of(t) == Some(t)
  {
    if t != [] {
      AsciiUtf8(t[1..]);
      assert [t[0]] + t[1..] == t;
    }
  }

  /** Allowed characters other than `&` reach the output unchanged. */
  lemma AllowedTextPassesThrough(t: Text)
    requires forall i :: 0 <= i < |t| ==> IsLiteral(t[i])
    ensures QueryArgumentEncodedString(t).Some?
    ensures |QueryArgumentEncodedString(t).value| == |t|
    ensures forall i :: 0 <= i < |t| ==> QueryArgumentEncodedString(t).value[i] as int == t[i]
  {
    AsciiUtf8(t);
    LiteralBytesPassThrough(t);
  }

  /** An ampersand in caller text is written as `%26`. */
  lemma AmpersandIsEscaped()
    ensures QueryArgumentEncodedString(['&' as int]) == Some("%26")
  {
    AsciiUtf8(['&' as int]);
    DelimitersAreNotAllowed();
    assert !IsLiteral(0x26);
    assert HexDigit(2) == '2' && HexDigit(6) == '6';
    assert EncodeByte(0x26) == "%26";
    assert EncodeBytes([0x26]) == EncodeByte(0x26) + EncodeBytes([]);
    assert EncodeBytes([0x26]) == "%26";
  }
}
