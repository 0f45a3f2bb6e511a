/** JSON string literals: the escaping printer (`json_serialize_string`) and the
  unescaping reader (`skip_quotes`, `process_string`, `parse_utf16`). */
module JsonText {
  import opened Wrappers
  import opened CString
  import Utf8

  // ----- printing ----------------------------------------------------------

  function HexDigit(d: nat): char
    requires d < 16
  {
    if d < 10 then '0' + d as char else 'a' + (d - 10) as char
  }

  /** One case of the `switch` in `json_serialize_string`. */
  function EscapeChar(c: char, slashes: bool): (s: string)
    ensures s != []
  {
    if c == '\"' then "\\\""
    else if c == '\\' then "\\\\"
    else if c == BACKSPACE then "\\b"
    else if c == FORMFEED then "\\f"
    else if c == NEWLINE then "\\n"
    else if c == RETURN then "\\r"
    else if c == TAB then "\\t"
    else if c < ' ' then "\\u00" + [HexDigit(c as int / 16), HexDigit(c as int % 16)]
    else if c == '/' && slashes then "\\/"
    else [c]
  }

  function Escape(s: string, slashes: bool): string {
    if s == [] then [] else EscapeChar(s[0], slashes) + Escape(s[1..], slashes)
  }

  function Quote(s: string, slashes: bool): string {
    "\"" + Escape(s, slashes) + "\""
  }

  // ----- reading -----------------------------------------------------------

  /** `hex_char_to_int` */
  function HexValue(c: char): (v: int)
    ensures -1 <= v < 16
  {
    if '0' <= c <= '9' then (c - '0') as int
    else if 'a' <= c <= 'f' then (c - 'a') as int + 10
    else if 'A' <= c <= 'F' then (c - 'A') as int + 10
    else -1
  }

  /** `parse_utf16_hex` */
  function ParseHex4(s: string): (r: Option<int>)
    ensures r.Some? ==> |s| >= 4 && 0 <= r.value < 0x10000
  {
    if |s| < 4 then None
    else
      var x1, x2, x3, x4 := HexValue(s[0]), HexValue(s[1]), HexValue(s[2]), HexValue(s[3]);
      if x1 == -1 || x2 == -1 || x3 == -1 || x4 == -1 then None
      else Some(x1 * 4096 + x2 * 256 + x3 * 16 + x4)
  }

  /** The code point of a surrogate pair (RFC 8259 section 7). */
  function Combine(lead: int, trail: int): int {
    (lead - 0xD800) % 0x400 * 0x400 + (trail - 0xDC00) % 0x400 + 0x10000
  }

  /** The reading half of `parse_utf16`, entered on the character after the `u`:
    the code point and the characters consumed. */
  function ParseCodePoint(s: string): (r: Option<(int, nat)>)
    ensures r.Some? ==> 4 <= r.value.1 <= |s| && Utf8.ScalarValue(r.value.0)
  {
    var first := ParseHex4(s);
    if first.None? then None
    else
      var cp := first.value;
      if cp < 0xD800 || cp > 0xDFFF then Some((cp, 4))
      else if cp <= 0xDBFF then
        if |s| < 6 || s[4] != '\\' || s[5] != 'u' then None
        else
          var second := ParseHex4(s[6..]);
          if second.None? || second.value < 0xDC00 || second.value > 0xDFFF then None
          else Some((Combine(cp, second.value), 10))
      else None
  }

  /** The writing half of `parse_utf16`. */
  function PutUtf8(cp: int): (s: string)
    requires 0 <= cp
    ensures 1 <= |s| <= 4
  {
    if cp < 0x80 then [cp as char]
    else if cp < 0x800 then [(cp / 64 % 32 + 0xC0) as char, (cp % 64 + 0x80) as char]
    else if cp < 0x10000 then
      [(cp / 4096 % 16 + 0xE0) as char, (cp / 64 % 64 + 0x80) as char, (cp % 64 + 0x80) as char]
    else
      [(cp / 262144 % 8 + 0xF0) as char, (cp / 4096 % 64 + 0x80) as char,
       (cp / 64 % 64 + 0x80) as char, (cp % 64 + 0x80) as char]
  }

  /** `parse_utf16`: the octets produced and the characters consumed. */
  function ParseUtf16(s: string): (r: Option<(string, nat)>)
    ensures r.Some? ==> 4 <= r.value.1 <= |s| && 1 <= |r.value.0| <= 4
  {
    var p := ParseCodePoint(s);
    if p.None? then None else Some((PutUtf8(p.value.0), p.value.1))
  }

  /** The two-character escapes of `process_string`. */
  function SimpleEscape(c: char): Option<char> {
    if c == '\"' then Some('\"')
    else if c == '\\' then Some('\\')
    else if c == '/' then Some('/')
    else if c == 'b' then Some(BACKSPACE)
    else if c == 'f' then Some(FORMFEED)
    else if c == 'n' then Some(NEWLINE)
    else if c == 'r' then Some(RETURN)
    else if c == 't' then Some(TAB)
    else None
  }

  /** One turn of the loop of `process_string` at the front of a non-empty text:
    the octets produced and the characters consumed. */
  function UnescapeStep(s: string): (r: Option<(string, nat)>)
    requires s != []
    ensures r.Some? ==> 1 <= |r.value.0| <= r.value.1 <= |s|
  {
    if s[0] == '\\' then
      if Peek(s[1..]) == 'u' then
        var u := ParseUtf16(s[2..]);
        if u.None? then None else Some((u.value.0, u.value.1 + 2))
      else
        var e := SimpleEscape(Peek(s[1..]));
        if e.None? then None else Some(([e.value], 2))
    else if s[0] < ' ' then None
    else Some(([s[0]], 1))
  }

  /** `process_string` on the characters between two quotes.  The output never
    outgrows the input, so the buffer of `input_len + 1` characters suffices. */
  function Unescape(s: string): (r: Option<string>)
    ensures r.Some? ==> |r.value| <= |s|
    decreases |s|
  {
    if s == [] || s[0] == NUL then Some([])
    else
      var step := UnescapeStep(s);
      if step.None? then None
      else
        var tail := Unescape(s[step.value.1..]);
        if tail.None? then None else Some(step.value.0 + tail.value)
  }

  /** `skip_quotes` after the opening quote: the number of characters up to and
    including the closing one. */
  function SkipQuoted(s: string): (r: Option<nat>)
    ensures r.Some? ==> 1 <= r.value <= |s| && s[r.value - 1] == '\"'
    ensures r.Some? ==> NulFree(s[..r.value])
    decreases |s|
  {
    if s == [] || s[0] == NUL then None
    else if s[0] == '\"' then Some(1)
    else if s[0] == '\\' then
      if |s| < 2 || s[1] == NUL then None
      else
        var r := SkipQuoted(s[2..]);
        if r.None? then None else Some(r.value + 2)
    else
      var r := SkipQuoted(s[1..]);
      if r.None? then None else Some(r.value + 1)
  }

  /** `get_quoted_string`: the processed string and the characters consumed. */
  function GetQuoted(s: string): (r: Option<(string, nat)>)
    ensures r.Some? ==> 2 <= r.value.1 <= |s|
  {
    if Peek(s) != '\"' then None
    else
      var n := SkipQuoted(s[1..]);
      if n.None? then None
      else
        var t := Unescape(s[1..n.value]);
        if t.None? then None else Some((t.value, n.value + 1))
  }

  // ----- they undo each other ----------------------------------------------

  lemma UnescapeEscapedChar(c: char, slashes: bool, rest: string)
    ensures UnescapeStep(EscapeChar(c, slashes) + rest) == Some(([c], |EscapeChar(c, slashes)|))
  {
    var e := EscapeChar(c, slashes);
    var s := e + rest;
    if |e| == 6 {
      var h := "00" + [HexDigit(c as int / 16), HexDigit(c as int % 16)];
      assert s[2..] == h + rest;
      assert ParseHex4(h + rest) == Some(c as int);
    }
  }

  /** Unescaping what was escaped gives the string back, whatever characters it
    holds and whichever way slashes are written. */
  lemma {:induction false} UnescapeEscape(s: string, slashes: bool)
    ensures Unescape(Escape(s, slashes)) == Some(s)
  {
    if s != [] {
      var e := EscapeChar(s[0], slashes);
      UnescapeEscapedChar(s[0], slashes, Escape(s[1..], slashes));
      assert Escape(s, slashes)[|e|..] == Escape(s[1..], slashes);
      UnescapeEscape(s[1..], slashes);
      assert [s[0]] + s[1..] == s;
    }
  }

  function Plus(r: Option<nat>, n: nat): Option<nat> {
    if r.None? then None else Some(r.value + n)
  }

  /** `skip_quotes` runs through an escaped string ... */
  lemma {:induction false} SkipEscaped(s: string, slashes: bool, rest: string)
    ensures SkipQuoted(Escape(s, slashes) + rest) == Plus(SkipQuoted(rest), |Escape(s, slashes)|)
  {
    hide EscapeChar, SkipQuoted;
    if s == [] {
      assert Escape(s, slashes) + rest == rest;
    } else {
      var e, t := EscapeChar(s[0], slashes), Escape(s[1..], slashes) + rest;
      assert Escape(s, slashes) + rest == e + t;
      EscapeShields(s[0], slashes);
      SkipShielded(e, t);
      SkipEscaped(s[1..], slashes, rest);
    }
  }

  /** An escaped character is one harmless character, or a backslash, a
    character it shields and harmless characters. */
  predicate Shielded(e: string) {
    || (|e| == 1 && Harmless(e))
    || (|e| >= 2 && e[0] == '\\' && e[1] != NUL && Harmless(e[2..]))
  }

  predicate Harmless(p: string) {
    '\"' !in p && '\\' !in p && NUL !in p
  }

  lemma EscapeShields(c: char, slashes: bool)
    ensures Shielded(EscapeChar(c, slashes))
  {
    var e := EscapeChar(c, slashes);
    if |e| == 6 {
      assert e[2..] == "00" + [HexDigit(c as int / 16), HexDigit(c as int % 16)];
    }
  }

  lemma SkipShielded(e: string, t: string)
    requires Shielded(e)
    ensures SkipQuoted(e + t) == Plus(SkipQuoted(t), |e|)
  {
    if |e| == 1 && Harmless(e) {
      SkipPlain(e, t);
    } else {
      assert (e + t)[2..] == e[2..] + t;
      SkipPlain(e[2..], t);
    }
  }

  lemma {:induction false} SkipPlain(p: string, t: string)
    requires Harmless(p)
    ensures SkipQuoted(p + t) == Plus(SkipQuoted(t), |p|)
  {
    if p == [] {
      assert p + t == t;
    } else {
      assert (p + t)[1..] == p[1..] + t;
      SkipPlain(p[1..], t);
    }
  }

  /** ... and stops exactly behind the closing quote. */
  lemma QuotedRoundTrip(s: string, slashes: bool, rest: string)
    ensures GetQuoted(Quote(s, slashes) + rest) == Some((s, |Quote(s, slashes)|))
  {
    var e := Escape(s, slashes);
    var t := (Quote(s, slashes) + rest)[1..];
    assert t == e + ("\"" + rest);
    SkipEscaped(s, slashes, "\"" + rest);
    assert (Quote(s, slashes) + rest)[1..|e| + 1] == e;
    UnescapeEscape(s, slashes);
  }

  // ----- \u escapes (RFC 8259 section 7) -----------------------------------

  function HexText(n: int): (s: string)
    requires 0 <= n < 0x10000
    ensures |s| == 4
  {
    [HexDigit(n / 4096), HexDigit(n / 256 % 16), HexDigit(n / 16 % 16), HexDigit(n % 16)]
  }

  /** A scalar value as one or two hexadecimal escapes, without the first `\u`. */
  function Utf16Text(cp: int): string
    requires Utf8.ScalarValue(cp)
  {
    if cp < 0x10000 then HexText(cp)
    else HexText((cp - 0x10000) / 0x400 + 0xD800) + "\\u" + HexText((cp - 0x10000) % 0x400 + 0xDC00)
  }

  lemma ParseHexText(n: int, rest: string)
    requires 0 <= n < 0x10000
    ensures ParseHex4(HexText(n) + rest) == Some(n)
  {
    var s := HexText(n) + rest;
    HexValueOfDigit(n / 4096);
    HexValueOfDigit(n / 256 % 16);
    HexValueOfDigit(n / 16 % 16);
    HexValueOfDigit(n % 16);
    assert n / 256 == n / 4096 * 16 + n / 256 % 16;
    assert n / 16 == n / 256 * 16 + n / 16 % 16;
  }

  lemma HexValueOfDigit(d: nat)
    requires d < 16
    ensures HexValue(HexDigit(d)) == d
  {
  }

  lemma ParseUtf16Text(cp: int, rest: string)
    requires Utf8.ScalarValue(cp)
    ensures ParseCodePoint(Utf16Text(cp) + rest) == Some((cp, |Utf16Text(cp)|))
  {
    hide HexText, ParseHex4, Combine;
    if cp < 0x10000 {
      ParseHexText(cp, rest);
    } else {
      hide ParseCodePoint;
      ParseSurrogates((cp - 0x10000) / 0x400 + 0xD800, (cp - 0x10000) % 0x400 + 0xDC00, rest);
      CombineSplit(cp);
    }
  }

  lemma CombineSplit(cp: int)
    requires 0x10000 <= cp <= 0x10FFFF
    ensures Combine((cp - 0x10000) / 0x400 + 0xD800, (cp - 0x10000) % 0x400 + 0xDC00) == cp
  {
  }

  lemma ParseSurrogates(lead: int, trail: int, rest: string)
    requires 0xD800 <= lead <= 0xDBFF && 0xDC00 <= trail <= 0xDFFF
    ensures ParseCodePoint(HexText(lead) + "\\u" + HexText(trail) + rest) == Some((Combine(lead, trail), 10))
  {
    hide HexText, ParseHex4;
    var a, b := HexText(lead), HexText(trail);
    var s := a + "\\u" + b + rest;
    assert s == a + ("\\u" + b + rest);
    ParseHexText(lead, "\\u" + b + rest);
    assert s[4] == '\\' && s[5] == 'u';
    assert s[6..] == b + rest;
    ParseHexText(trail, rest);
  }

  lemma PutIsEncode(cp: int)
    requires Utf8.ScalarValue(cp)
    ensures PutUtf8(cp) == Utf8.Encode(cp)
  {
    if cp < 0x80 {
    } else if cp < 0x800 {
      assert cp / 64 % 32 == cp / 64;
    } else if cp < 0x10000 {
      assert cp / 4096 % 16 == cp / 4096;
    } else {
      assert cp / 262144 % 8 == cp / 262144;
    }
  }

  /** Every scalar value, written as an escape or a surrogate pair, decodes to
    its UTF-8 encoding, which the validity check accepts with that value. */
  lemma Utf16DecodesToUtf8(cp: int, rest: string)
    requires Utf8.ScalarValue(cp)
    ensures ParseUtf16(Utf16Text(cp) + rest) == Some((Utf8.Encode(cp), |Utf16Text(cp)|))
    ensures Utf8.Verify(Utf8.Encode(cp) + rest) == (|Utf8.Encode(cp)|, cp)
  {
    ParseUtf16Text(cp, rest);
    PutIsEncode(cp);
    Utf8.VerifyDecodes(cp, rest);
  }

  /** Conversely, what `parse_utf16` accepts is the UTF-8 encoding of a scalar
    value: lone surrogates never get through. */
  lemma Utf16OnlyScalars(s: string)
    requires ParseUtf16(s).Some?
    ensures exists cp :: Utf8.ScalarValue(cp) && ParseUtf16(s).value.0 == Utf8.Encode(cp)
  {
    PutIsEncode(ParseCodePoint(s).value.0);
  }
}
