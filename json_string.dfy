/**
  * JSON text for a single string value, as section 7 of RFC 8259 defines it and as the snapshot
  * file uses it: the encoder is `json.dump` on a `str` with its defaults (ASCII-only output), the
  * decoder is `json.loads` in its default strict mode restricted to documents that hold one string.
  */
module JsonString {
  import opened Wrappers

  /** Characters a JSON encoder with ASCII-only output may emit: space through tilde. */
  predicate Printable(s: string) {
    forall i :: 0 <= i < |s| ==> ' ' <= s[i] <= '~'
  }

  // ---------------------------------------------------------------- hexadecimal digits

  function HexDigit(d: nat): (c: char)
    requires d < 16
    ensures ' ' <= c <= '~'
  {
    if d < 10 then ('0' as int + d) as char else ('a' as int + d - 10) as char
  }

  /** The value of one hexadecimal digit; both letter cases are accepted. */
  function HexValue(c: char): Option<nat> {
    if '0' <= c <= '9' then Some(c as int - '0' as int)
    else if 'a' <= c <= 'f' then Some(c as int - 'a' as int + 10)
    else if 'A' <= c <= 'F' then Some(c as int - 'A' as int + 10)
    else None
  }

  /** Four lower-case hexadecimal digits, most significant first. */
  function Hex4(n: nat): (r: string)
    requires n < 0x10000
    ensures |r| == 4 && Printable(r)
  {
    var n1 := n / 16;
    var n2 := n1 / 16;
    [HexDigit(n2 / 16), HexDigit(n2 % 16), HexDigit(n1 % 16), HexDigit(n % 16)]
  }

  function ParseHex4(s: string): (r: Option<nat>)
    requires |s| == 4
    ensures r.Some? ==> r.value < 0x10000
  {
    match (HexValue(s[0]), HexValue(s[1]), HexValue(s[2]), HexValue(s[3]))
    case (Some(a), Some(b), Some(c), Some(d)) =>
      if a < 16 && b < 16 && c < 16 && d < 16 then Some(((a * 16 + b) * 16 + c) * 16 + d) else None
    case _ => None
  }

  lemma HexDigitValue(d: nat)
    requires d < 16
    ensures HexValue(HexDigit(d)) == Some(d)
  {
  }

  lemma ParseHex4OfHex4(n: nat)
    requires n < 0x10000
    ensures ParseHex4(Hex4(n)) == Some(n)
  {
    var n1 := n / 16;
    var n2 := n1 / 16;
    HexDigitValue(n2 / 16);
    HexDigitValue(n2 % 16);
    HexDigitValue(n1 % 16);
    HexDigitValue(n % 16);
    assert (n2 / 16 * 16 + n2 % 16) == n2;
    assert n2 * 16 + n1 % 16 == n1;
    assert n1 * 16 + n % 16 == n;
  }

  // ---------------------------------------------------------------- encoder

  /** The UTF-16 high surrogate of a character beyond the Basic Multilingual Plane. */
  function HighSurrogate(c: char): (hi: int)
    requires c as int >= 0x10000
    ensures 0xD800 <= hi < 0xDC00
  {
    0xD800 + (c as int - 0x10000) / 0x400
  }

  /** The UTF-16 low surrogate of a character beyond the Basic Multilingual Plane. */
  function LowSurrogate(c: char): (lo: int)
    requires c as int >= 0x10000
    ensures 0xDC00 <= lo < 0xE000
  {
    0xDC00 + (c as int - 0x10000) % 0x400
  }

  /** The digits of the high-surrogate escape, then the whole low-surrogate escape. */
  function SurrogateEscapes(c: char): (r: string)
    requires c as int >= 0x10000
    ensures Printable(r)
  {
    Hex4(HighSurrogate(c)) + "\\u" + Hex4(LowSurrogate(c))
  }

  /**
    * The escape of one character: the two-character escapes of RFC 8259 for quotation mark,
    * reverse solidus, backspace, form feed, line feed, carriage return and tab; printable ASCII
    * as itself; every other character as `\uXXXX`, and a character beyond the Basic Multilingual
    * Plane as a UTF-16 surrogate pair of two such escapes.
    */
  function EscapeChar(c: char): (r: string)
    ensures Printable(r) && |r| > 0
  {
    if c == '"' then "\\\""
    else if c == '\\' then "\\\\"
    else if c == '\U{0008}' then "\\b"
    else if c == '\U{000C}' then "\\f"
    else if c == '\n' then "\\n"
    else if c == '\r' then "\\r"
    else if c == '\t' then "\\t"
    else if ' ' <= c <= '~' then [c]
    else if c as int < 0x10000 then "\\u" + Hex4(c as int)
    else "\\u" + SurrogateEscapes(c)
  }

  /** The characters between the quotation marks of an encoded string. */
  function EncodeBody(s: string): (r: string)
    ensures Printable(r)
    ensures |r| >= |s|
  {
    if s == [] then "" else EscapeChar(s[0]) + EncodeBody(s[1..])
  }

  /** The JSON text of a string value. */
  function Encode(s: string): (r: string)
    ensures Printable(r)
    ensures |r| >= 2 && r[0] == '"' && r[|r| - 1] == '"'
    ensures forall i :: 0 <= i < |r| ==> r[i] != '\n' && r[i] != '\r'
  {
    "\"" + EncodeBody(s) + "\""
  }

  // ---------------------------------------------------------------- decoder

  /** The character a two-character escape `\c` stands for, if `c` names one. */
  function ShortEscape(c: char): Option<char> {
    if c == '"' then Some('"')
    else if c == '\\' then Some('\\')
    else if c == '/' then Some('/')
    else if c == 'b' then Some('\U{0008}')
    else if c == 'f' then Some('\U{000C}')
    else if c == 'n' then Some('\n')
    else if c == 'r' then Some('\r')
    else if c == 't' then Some('\t')
    else None
  }

  /** After four hex digits, `t` goes on with `\\u` and the four hex digits of a low surrogate. */
  predicate LowSurrogateFollows(t: string) {
    && |t| >= 10 && t[4] == '\\' && t[5] == 'u'
    && ParseHex4(t[6..10]).Some? && 0xDC00 <= ParseHex4(t[6..10]).value < 0xE000
  }

  /**
    * Decodes the four digits that follow `\u` (and, for a high surrogate, the low-surrogate escape
    * that must follow it), returning the character and the unread rest of the input.
    */
  function UnicodeEscape(t: string): (r: Option<(char, string)>)
    ensures r.Some? ==> |r.value.1| <= |t| - 4
    ensures r.Some? && r.value.0 as int < 0x10000 ==> r.value.1 == t[4..]
    ensures r.Some? && r.value.0 as int >= 0x10000 ==> |t| >= 10 && r.value.1 == t[10..]
    // a character of the Basic Multilingual Plane is the value of its four hex digits
    ensures r.Some? && r.value.0 as int < 0x10000 ==> ParseHex4(t[..4]) == Some(r.value.0 as int)
    // a supplementary character is joined from a high and a low surrogate escape
    ensures r.Some? && r.value.0 as int >= 0x10000 ==>
      && ParseHex4(t[..4]).Some? && 0xD800 <= ParseHex4(t[..4]).value < 0xDC00
      && LowSurrogateFollows(t)
      && r.value.0 as int == 0x10000 + (ParseHex4(t[..4]).value - 0xD800) * 0x400 + (ParseHex4(t[6..10]).value - 0xDC00)
    // a lone low surrogate is rejected
    ensures |t| >= 4 && ParseHex4(t[..4]).Some? && 0xDC00 <= ParseHex4(t[..4]).value < 0xE000 ==> r.None?
    // a high surrogate not followed by a low surrogate escape is rejected
    ensures |t| >= 4 && ParseHex4(t[..4]).Some? && 0xD800 <= ParseHex4(t[..4]).value < 0xDC00 && !LowSurrogateFollows(t) ==> r.None?
  {
    if |t| < 4 then None
    else match ParseHex4(t[..4])
      case None => None
      case Some(u) =>
        if 0xD800 <= u < 0xDC00 then
          if |t| >= 10 && t[4] == '\\' && t[5] == 'u' then
            match ParseHex4(t[6..10])
            case None => None
            case Some(u2) =>
              if 0xDC00 <= u2 < 0xE000 then
                Some(((0x10000 + (u - 0xD800) * 0x400 + (u2 - 0xDC00)) as char, t[10..]))
              else None
          else None
        else if 0xDC00 <= u < 0xE000 then None
        else Some((u as char, t[4..]))
  }

  function Prepend(c: char, r: Option<(string, string)>): (p: Option<(string, string)>)
    ensures p.Some? <==> r.Some?
    ensures p.Some? ==> p.value == ([c] + r.value.0, r.value.1)
  {
    match r
    case None => None
    case Some((v, rest)) => Some(([c] + v, rest))
  }

  /**
    * Scans the inside of a string literal up to and including its closing quotation mark; the
    * result is the decoded value and the unread rest. A raw control character, an unknown escape
    * or a missing closing quotation mark is an error.
    */
  function ParseChars(s: string): (r: Option<(string, string)>)
    ensures r.Some? ==> |r.value.0| + |r.value.1| < |s|
    decreases |s|
  {
    if s == [] then None
    else if s[0] == '"' then Some(("", s[1..]))
    else if s[0] == '\\' then
      if |s| < 2 then None
      else if s[1] == 'u' then
        match UnicodeEscape(s[2..])
        case None => None
        case Some((c, rest)) => Prepend(c, ParseChars(rest))
      else
        match ShortEscape(s[1])
        case None => None
        case Some(c) => Prepend(c, ParseChars(s[2..]))
    else if s[0] < ' ' then None
    else Prepend(s[0], ParseChars(s[1..]))
  }

  predicate IsJsonWhitespace(c: char) {
    c == ' ' || c == '\t' || c == '\n' || c == '\r'
  }

  function SkipWhitespace(s: string): (r: string)
    ensures |r| <= |s|
    ensures r == [] || !IsJsonWhitespace(r[0])
  {
    if s != [] && IsJsonWhitespace(s[0]) then SkipWhitespace(s[1..]) else s
  }

  /** The string value of a JSON text that holds one string, surrounded by optional whitespace. */
  function Decode(text: string): (r: Option<string>)
    ensures r.Some? ==> |r.value| + 2 <= |text|
  {
    var t := SkipWhitespace(text);
    if t == [] || t[0] != '"' then None
    else match ParseChars(t[1..])
      case None => None
      case Some((v, rest)) => if SkipWhitespace(rest) == [] then Some(v) else None
  }

  // ---------------------------------------------------------------- round trip

  lemma ParseShortEscape(c: char, t: string)
    requires c == '"' || c == '\\' || c == '\U{0008}' || c == '\U{000C}' || c == '\n' || c == '\r' || c == '\t'
    ensures ParseChars(EscapeChar(c) + t) == Prepend(c, ParseChars(t))
  {
    var s := EscapeChar(c) + t;
    assert |EscapeChar(c)| == 2 && s[0] == '\\' && s[1] != 'u';
    assert s[2..] == t;
  }

  lemma ParseBmpEscape(c: char, t: string)
    requires !(' ' <= c <= '~') && c as int < 0x10000
    requires c != '\U{0008}' && c != '\U{000C}' && c != '\n' && c != '\r' && c != '\t'
    ensures ParseChars(EscapeChar(c) + t) == Prepend(c, ParseChars(t))
  {
    var s := EscapeChar(c) + t;
    assert EscapeChar(c) == "\\u" + Hex4(c as int);
    ParseHex4OfHex4(c as int);
    assert s[2..][..4] == Hex4(c as int);
    assert s[2..][4..] == t;
    assert UnicodeEscape(s[2..]) == Some((c, t));
  }

  /** The digits of a high- and a low-surrogate escape decode to the character the pair encodes. */
  lemma UnicodeEscapeOfParsedPair(u: string, hi: int, lo: int)
    requires 0xD800 <= hi < 0xDC00 && 0xDC00 <= lo < 0xE000
    requires |u| >= 10 && u[4] == '\\' && u[5] == 'u'
    requires ParseHex4(u[..4]) == Some(hi) && ParseHex4(u[6..10]) == Some(lo)
    ensures UnicodeEscape(u) == Some(((0x10000 + (hi - 0xD800) * 0x400 + (lo - 0xDC00)) as char, u[10..]))
  {
  }

  lemma UnicodeEscapeOfPair(hi: int, lo: int, t: string)
    requires 0xD800 <= hi < 0xDC00 && 0xDC00 <= lo < 0xE000
    ensures UnicodeEscape(Hex4(hi) + "\\u" + Hex4(lo) + t)
      == Some(((0x10000 + (hi - 0xD800) * 0x400 + (lo - 0xDC00)) as char, t))
  {
    var u := Hex4(hi) + "\\u" + Hex4(lo) + t;
    assert u[..4] == Hex4(hi) && u[6..10] == Hex4(lo) && u[10..] == t;
    assert u[4] == '\\' && u[5] == 'u';
    ParseHex4OfHex4(hi);
    ParseHex4OfHex4(lo);
    UnicodeEscapeOfParsedPair(u, hi, lo);
  }

  /** The escapes of the two surrogates of `c` decode to `c`. */
  lemma UnicodeEscapeOfSurrogates(c: char, t: string)
    requires c as int >= 0x10000
    ensures UnicodeEscape(SurrogateEscapes(c) + t) == Some((c, t))
  {
    UnicodeEscapeOfPair(HighSurrogate(c), LowSurrogate(c), t);
    JoinSurrogates(c);
  }

  /** The two surrogates of a character join back to that character. */
  lemma JoinSurrogates(c: char)
    requires c as int >= 0x10000
    ensures 0x10000 + (HighSurrogate(c) - 0xD800) * 0x400 + (LowSurrogate(c) - 0xDC00) == c as int
  {
  }

  /** Scanning a `\u` escape whose digits decode to `c` and leave `t`. */
  lemma ParseUnicodeEscape(u: string, c: char, t: string)
    requires UnicodeEscape(u) == Some((c, t))
    ensures ParseChars("\\u" + u) == Prepend(c, ParseChars(t))
  {
    var s := "\\u" + u;
    assert s[0] == '\\' && s[1] == 'u' && s[2..] == u;
  }

  lemma EscapeOfSupplementary(c: char)
    requires c as int >= 0x10000
    ensures EscapeChar(c) == "\\u" + SurrogateEscapes(c)
  {
  }

  lemma ConcatAssociates(a: string, b: string, c: string)
    ensures (a + b) + c == a + (b + c)
  {
  }

  lemma ParseSurrogatePair(c: char, t: string)
    requires c as int >= 0x10000
    ensures ParseChars(EscapeChar(c) + t) == Prepend(c, ParseChars(t))
  {
    EscapeOfSupplementary(c);
    ConcatAssociates("\\u", SurrogateEscapes(c), t);
    UnicodeEscapeOfSurrogates(c, t);
    ParseUnicodeEscape(SurrogateEscapes(c) + t, c, t);
  }

  lemma ParseEscapeChar(c: char, t: string)
    ensures ParseChars(EscapeChar(c) + t) == Prepend(c, ParseChars(t))
  {
    if c == '"' || c == '\\' || c == '\U{0008}' || c == '\U{000C}' || c == '\n' || c == '\r' || c == '\t' {
      ParseShortEscape(c, t);
    } else if ' ' <= c <= '~' {
      assert (EscapeChar(c) + t)[1..] == t;
    } else if c as int < 0x10000 {
      ParseBmpEscape(c, t);
    } else {
      ParseSurrogatePair(c, t);
    }
  }

  lemma {:induction false} ParseEncodedBody(s: string, rest: string)
    ensures ParseChars(EncodeBody(s) + "\"" + rest) == Some((s, rest))
  {
    if s == [] {
      assert EncodeBody(s) + "\"" + rest == "\"" + rest;
    } else {
      var tail := EncodeBody(s[1..]) + "\"" + rest;
      assert EncodeBody(s) + "\"" + rest == EscapeChar(s[0]) + tail;
      ParseEscapeChar(s[0], tail);
      ParseEncodedBody(s[1..], rest);
      assert [s[0]] + s[1..] == s;
    }
  }

  lemma SkipWhitespaceOfWhitespace(s: string)
    requires forall i :: 0 <= i < |s| ==> IsJsonWhitespace(s[i])
    ensures SkipWhitespace(s) == []
  {
    if s != [] {
      SkipWhitespaceOfWhitespace(s[1..]);
    }
  }

  /** A quoted literal whose inside scans to `v`, followed only by whitespace, decodes to `v`. */
  lemma DecodeQuoted(body: string, v: string, rest: string)
    requires ParseChars(body) == Some((v, rest)) && SkipWhitespace(rest) == []
    ensures Decode("\"" + body) == Some(v)
  {
    var t := "\"" + body;
    assert t[0] == '"' && t[1..] == body;
    assert SkipWhitespace(t) == t;
  }

  lemma EncodeFollowedBy(s: string, trailing: string)
    ensures Encode(s) + trailing == "\"" + (EncodeBody(s) + "\"" + trailing)
  {
    ConcatAssociates("\"", EncodeBody(s) + "\"", trailing);
  }

  /** Decoding undoes encoding, also when the encoded text is followed by JSON whitespace. */
  lemma DecodeEncode(s: string, trailing: string)
    requires forall i :: 0 <= i < |trailing| ==> IsJsonWhitespace(trailing[i])
    ensures Decode(Encode(s) + trailing) == Some(s)
  {
    EncodeFollowedBy(s, trailing);
    ParseEncodedBody(s, trailing);
    SkipWhitespaceOfWhitespace(trailing);
    DecodeQuoted(EncodeBody(s) + "\"" + trailing, s, trailing);
  }
}
