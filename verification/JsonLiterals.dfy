/** String literals and numerals are read exactly as the grammar has them. */
module JsonLiterals {
  import opened Wrappers
  import opened CString
  import opened Libc
  import opened JsonValue
  import opened JsonParser
  import opened JsonGrammar
  import JsonText
  import JsonReader
  import Utf8

  // ----- hexadecimal digits ---------------------------------------------------

  lemma HexDigitExactly(c: char, d: nat)
    ensures IsHexDigit(c, d) <==> JsonText.HexValue(c) == d
  {
    if d < 10 {
      assert LOWER[d] == UPPER[d] == '0' + d as char;
    } else if d < 16 {
      assert LOWER[d] == 'a' + (d - 10) as char && UPPER[d] == 'A' + (d - 10) as char;
    }
  }

  lemma Hex4Exactly(s: string, n: nat)
    requires |s| >= 4
    ensures Denotes(s[..4], n) <==> JsonText.ParseHex4(s) == Some(n)
  {
    hide IsHexDigit, JsonText.HexValue;
    HexDigitExactly(s[0], n / 4096);
    HexDigitExactly(s[1], n / 256 % 16);
    HexDigitExactly(s[2], n / 16 % 16);
    HexDigitExactly(s[3], n % 16);
    var a, b, c, d := JsonText.HexValue(s[0]), JsonText.HexValue(s[1]), JsonText.HexValue(s[2]), JsonText.HexValue(s[3]);
    Hex4Sum(n);
    if a >= 0 && b >= 0 && c >= 0 && d >= 0 {
      Hex4Digits(a, b, c, d, a * 4096 + b * 256 + c * 16 + d);
    }
  }

  lemma Hex4Sum(n: nat)
    ensures n == n / 4096 * 4096 + n / 256 % 16 * 256 + n / 16 % 16 * 16 + n % 16
  {
    assert n / 256 == n / 16 / 16 && n / 4096 == n / 256 / 16;
  }

  lemma Hex4Digits(a: nat, b: nat, c: nat, d: nat, n: nat)
    requires a < 16 && b < 16 && c < 16 && d < 16 && n == a * 4096 + b * 256 + c * 16 + d
    ensures a == n / 4096 && b == n / 256 % 16 && c == n / 16 % 16 && d == n % 16
  {
    Split16(a * 256 + b * 16 + c, d);
    Split16(a * 16 + b, c);
    Split16(a, b);
    assert n / 256 == n / 16 / 16 && n / 4096 == n / 256 / 16;
  }

  lemma Split16(q: nat, r: nat)
    requires r < 16
    ensures (q * 16 + r) / 16 == q && (q * 16 + r) % 16 == r
  {
  }

  // ----- pieces ---------------------------------------------------------------

  /** What `process_string` makes of a piece is its value. */
  lemma StepOfPiece(p: Piece, rest: string)
    requires ValidPiece(p)
    ensures JsonText.UnescapeStep(PieceText(p) + rest) == Some((PieceValue(p), |PieceText(p)|))
  {
    hide JsonText.UnescapeStep, Denotes, Utf8.Encode, JsonText.ParseCodePoint;
    match p
    case Plain(_) => StepOfPlain(p, rest);
    case Short(c) => StepOfShort(c, rest);
    case Unicode(hex, unit) =>
      CodePointOfUnit(hex, unit, rest);
      StepOfHex(hex, rest, unit);
    case Pair(lead, high, trail, low) =>
      CodePointOfPair(lead, high, trail, low, rest);
      var hex := lead + "\\u" + trail;
      assert hex + rest == lead + ("\\u" + (trail + rest));
      StepOfHex(hex, rest, JsonText.Combine(high, low));
      assert "\\u" + hex == PieceText(p);
  }

  lemma StepOfPlain(p: Piece, rest: string)
    requires p.Plain? && ValidPiece(p)
    ensures JsonText.UnescapeStep(PieceText(p) + rest) == Some((PieceValue(p), |PieceText(p)|))
  {
  }

  lemma StepOfHex(hex: string, rest: string, cp: int)
    requires Utf8.ScalarValue(cp) && JsonText.ParseCodePoint(hex + rest) == Some((cp, |hex|))
    ensures JsonText.UnescapeStep("\\u" + hex + rest) == Some((Utf8.Encode(cp), |hex| + 2))
  {
    hide JsonText.ParseCodePoint, JsonText.PutUtf8, Utf8.Encode;
    var s := "\\u" + hex + rest;
    assert s[2..] == hex + rest && s[1..][0] == 'u';
    JsonText.PutIsEncode(cp);
  }

  lemma StepOfShort(c: char, rest: string)
    requires c in SHORT
    ensures JsonText.UnescapeStep(['\\', c] + rest) == Some(([SHORT[c]], 2))
  {
    hide JsonText.ParseUtf16;
    assert (['\\', c] + rest)[1..] == [c] + rest;
  }

  lemma CodePointOfUnit(hex: string, unit: nat, rest: string)
    requires Denotes(hex, unit) && !(0xD800 <= unit <= 0xDFFF)
    ensures |hex| == 4 && JsonText.ParseCodePoint(hex + rest) == Some((unit, 4))
  {
    hide JsonText.ParseHex4, Denotes;
    HexLength(hex, unit);
    assert (hex + rest)[..4] == hex;
    Hex4Exactly(hex + rest, unit);
  }

  lemma CodePointOfPair(lead: string, high: nat, trail: string, low: nat, rest: string)
    requires Denotes(lead, high) && Denotes(trail, low) && 0xD800 <= high <= 0xDBFF && 0xDC00 <= low <= 0xDFFF
    ensures |lead| == |trail| == 4
    ensures var cp := 0x1_0000 + (high - 0xD800) * 0x400 + (low - 0xDC00);
            && Utf8.ScalarValue(cp) && JsonText.Combine(high, low) == cp
            && JsonText.ParseCodePoint(lead + ("\\u" + (trail + rest))) == Some((cp, 10))
  {
    hide JsonText.ParseHex4, Denotes;
    HexLength(lead, high);
    HexLength(trail, low);
    var t := lead + ("\\u" + (trail + rest));
    assert t[..4] == lead && t[4] == '\\' && t[5] == 'u' && t[6..] == trail + rest && (trail + rest)[..4] == trail;
    Hex4Exactly(t, high);
    Hex4Exactly(trail + rest, low);
  }

  lemma HexLength(hex: string, n: nat)
    requires Denotes(hex, n)
    ensures |hex| == 4 && n < 0x1_0000
  {
  }

  /** And it is the only reading: every step that `process_string` takes passes a piece. */
  lemma PieceOfStep(s: string) returns (p: Piece)
    requires s != [] && s[0] != '\"' && JsonText.UnescapeStep(s).Some?
    ensures ValidPiece(p) && PieceText(p) <= s
    ensures JsonText.UnescapeStep(s).value == (PieceValue(p), |PieceText(p)|)
  {
    hide JsonText.ParseHex4, Denotes, JsonText.PutUtf8, Utf8.Encode;
    if s[0] != '\\' {
      p := Plain(s[0]);
    } else if Peek(s[1..]) != 'u' {
      p := Short(s[1]);
    } else {
      var t := s[2..];
      var unit := JsonText.ParseHex4(t).value;
      Hex4Exactly(t, unit);
      p := Unicode(t[..4], unit);
      if 0xD800 <= unit <= 0xDFFF {
        var low := JsonText.ParseHex4(t[6..]).value;
        Hex4Exactly(t[6..], low);
        p := Pair(t[..4], unit, t[6..][..4], low);
        assert PieceText(p) == "\\u" + t[..4] + "\\u" + t[6..][..4];
        JsonText.PutIsEncode(JsonText.Combine(unit, low));
      } else {
        JsonText.PutIsEncode(unit);
      }
    }
  }

  // ----- literals -------------------------------------------------------------

  lemma PieceStart(p: Piece)
    requires ValidPiece(p)
    ensures PieceText(p)[0] != '\"' && PieceText(p)[0] != NUL
  {
  }

  lemma {:induction false} UnescapePieces(ps: seq<Piece>)
    requires ValidPieces(ps)
    ensures JsonText.Unescape(PiecesText(ps)) == Some(PiecesValue(ps))
  {
    hide PieceText, PieceValue, ValidPiece, JsonText.UnescapeStep;
    if ps != [] {
      var p, tail := ps[0], PiecesText(ps[1..]);
      PieceStart(p);
      StepOfPiece(p, tail);
      UnescapePieces(ps[1..]);
      assert (PieceText(p) + tail)[|PieceText(p)|..] == tail;
    }
  }

  lemma SkipPiece(p: Piece, tail: string)
    requires ValidPiece(p)
    ensures JsonText.SkipQuoted(PieceText(p) + tail) == JsonText.Plus(JsonText.SkipQuoted(tail), |PieceText(p)|)
  {
    hide PieceText, PieceValue, ValidPiece, JsonText.UnescapeStep, JsonText.SkipQuoted;
    PieceStart(p);
    StepOfPiece(p, tail);
    JsonReader.StepSkips(PieceText(p) + tail);
    assert (PieceText(p) + tail)[|PieceText(p)|..] == tail;
  }

  lemma {:induction false} SkipPieces(ps: seq<Piece>, rest: string)
    requires ValidPieces(ps)
    ensures JsonText.SkipQuoted(PiecesText(ps) + rest) == JsonText.Plus(JsonText.SkipQuoted(rest), |PiecesText(ps)|)
  {
    hide PieceText, ValidPiece, JsonText.SkipQuoted;
    if ps == [] {
      assert PiecesText(ps) + rest == rest;
    } else {
      assert PiecesText(ps) + rest == PieceText(ps[0]) + (PiecesText(ps[1..]) + rest);
      SkipPiece(ps[0], PiecesText(ps[1..]) + rest);
      SkipPieces(ps[1..], rest);
    }
  }

  /** A literal is read whole, with its value. */
  lemma QuotedLiteral(ps: seq<Piece>, rest: string)
    requires ValidPieces(ps)
    ensures JsonText.GetQuoted(Literal(ps) + rest) == Some((PiecesValue(ps), |Literal(ps)|))
  {
    hide PiecesText, PiecesValue, JsonText.Unescape;
    var t := PiecesText(ps);
    var s := Literal(ps) + rest;
    assert s[1..] == t + ("\"" + rest);
    SkipPieces(ps, "\"" + rest);
    assert s[1..|t| + 1] == t;
    UnescapePieces(ps);
  }

  /** The pieces up to the closing quote. */
  lemma {:induction false} PiecesOf(s: string, n: nat) returns (ps: seq<Piece>)
    requires JsonText.SkipQuoted(s) == Some(n) && JsonText.Unescape(s[..n - 1]).Some?
    ensures ValidPieces(ps) && PiecesText(ps) == s[..n - 1]
    ensures PiecesValue(ps) == JsonText.Unescape(s[..n - 1]).value
    decreases |s|
  {
    hide PieceText, PieceValue, ValidPiece, JsonText.Unescape, JsonText.SkipQuoted;
    if n == 1 {
      ps := [];
      assert JsonText.Unescape("") == Some("") by { UnescapeNothing(); }
    } else {
      var p := FirstPiece(s, n);
      var tail := PiecesOf(s[|PieceText(p)|..], n - |PieceText(p)|);
      ps := [p] + tail;
      assert ps[1..] == tail;
    }
  }

  lemma UnescapeNothing()
    ensures JsonText.Unescape("") == Some("")
  {
  }

  lemma FirstPiece(s: string, n: nat) returns (p: Piece)
    requires JsonText.SkipQuoted(s) == Some(n) && n > 1 && JsonText.Unescape(s[..n - 1]).Some?
    ensures ValidPiece(p) && 0 < |PieceText(p)| < n
    ensures var k := |PieceText(p)|;
            && JsonText.SkipQuoted(s[k..]) == Some(n - k)
            && JsonText.Unescape(s[k..][..n - k - 1]).Some?
            && s[..n - 1] == PieceText(p) + s[k..][..n - k - 1]
            && JsonText.Unescape(s[..n - 1]).value == PieceValue(p) + JsonText.Unescape(s[k..][..n - k - 1]).value
  {
    hide PieceText, PieceValue, ValidPiece, JsonText.UnescapeStep, JsonText.SkipQuoted, NulFree;
    var body, close := s[..n - 1], s[n - 1..];
    BodyStart(s, n);
    assert body + close == s;
    JsonReader.StepWithin(body, close);
    JsonReader.StepSkips(s);
    p := PieceOfStep(body);
    var k := |PieceText(p)|;
    assert s[k..][..n - k - 1] == body[k..];
    assert body == PieceText(p) + body[k..];
  }

  lemma BodyStart(s: string, n: nat)
    requires JsonText.SkipQuoted(s) == Some(n) && n > 1
    ensures s[0] != '\"' && s[0] != NUL && s[n - 1] == '\"'
  {
  }

  /** What was read as a quoted string is a literal of that value. */
  lemma LiteralOf(s: string) returns (ps: seq<Piece>)
    requires JsonText.GetQuoted(s).Some?
    ensures ValidPieces(ps) && JsonText.GetQuoted(s).value == (PiecesValue(ps), |Literal(ps)|)
    ensures Literal(ps) <= s
  {
    hide JsonText.SkipQuoted, JsonText.Unescape, PiecesText, PiecesValue, ValidPieces;
    var n := JsonText.SkipQuoted(s[1..]).value;
    assert s[1..][..n - 1] == s[1..n];
    ps := PiecesOf(s[1..], n);
    assert s[1..][n - 1] == s[n];
    assert Literal(ps) == s[..n + 1];
  }

  // ----- numerals -------------------------------------------------------------

  lemma {:induction false} DigitsPlain(s: string, n: nat)
    requires n == Digits(s)
    ensures NumberCharsOnly(s[..n])
  {
  }

  predicate NumberCharsOnly(t: string) {
    'x' !in t && 'X' !in t && NUL !in t
  }

  lemma ExponentPlain(e: string)
    requires Exponent(e)
    ensures NumberCharsOnly(e)
  {
    var k := if e[1] == '+' || e[1] == '-' then 2 else 1;
    DigitsPlain(e[k..], |e| - k);
    assert e == e[..k] + e[k..];
  }

  lemma JoinPlain(a: string, b: string)
    ensures NumberCharsOnly(a + b) <==> NumberCharsOnly(a) && NumberCharsOnly(b)
  {
  }

  lemma DecimalsPlain(t: string)
    requires Decimals(t)
    ensures t != [] && NumberCharsOnly(t)
  {
    hide Digits, Exponent, NumberCharsOnly;
    var u := Unsigned(t);
    var i := Digits(u);
    var k := i;
    DigitsPlain(u, i);
    if i < |u| && u[i] == '.' {
      var j := Digits(u[i + 1..]);
      DigitsPlain(u[i + 1..], j);
      k := i + 1 + j;
      assert u[..k] == u[..i] + ("." + u[i + 1..][..j]);
      PointPlain();
      JoinPlain(".", u[i + 1..][..j]);
      JoinPlain(u[..i], "." + u[i + 1..][..j]);
    }
    if k < |u| {
      ExponentPlain(u[k..]);
      JoinPlain(u[..k], u[k..]);
      assert u == u[..k] + u[k..];
    } else {
      assert u == u[..k];
    }
    JoinPlain("-", u);
    PointPlain();
    assert t == u || t == "-" + u;
  }

  lemma PointPlain()
    ensures NumberCharsOnly(".") && NumberCharsOnly("-")
  {
  }

  lemma NumeralIsDecimal(t: string)
    requires Decimals(t)
    ensures IsDecimal(t) <==> !LeadingZero(t)
  {
    hide Decimals, Digits, Exponent;
    DecimalsPlain(t);
  }

  /** A numeral is read whole in front of what cannot carry it on. */
  lemma ReadNumeral(lib: Numbers, t: string, n: real, rest: string)
    requires Numeral(lib, t, n) && (Delimited(rest) || UsesJust(lib, t, rest))
    ensures ParseNumber(lib, t + rest) == Ok(Number(n), rest)
  {
    hide Decimals, IsDecimal, LeadingZero, Delimited;
    NumeralIsDecimal(t);
    assert UsesJust(lib, t, rest) || Delimited(rest);
    assert lib.strtod(t + rest) == lib.strtod(t);
    assert (t + rest)[..|t|] == t && (t + rest)[|t|..] == rest;
  }

  /** What was read as a number is a numeral of that value, unless nothing was used. */
  lemma NumeralOf(lib: Numbers, s: string) returns (t: string)
    requires StartsNumber(Peek(s)) && ParseNumber(lib, s).Ok? && |ParseNumber(lib, s).rest| < |s|
    ensures s == t + ParseNumber(lib, s).rest && UsesJust(lib, t, ParseNumber(lib, s).rest)
    ensures ParseNumber(lib, s).value.Number? && Numeral(lib, t, ParseNumber(lib, s).value.n)
    ensures ParseNumber(lib, s).rest != [] ==> !IsDigit(ParseNumber(lib, s).rest[0])
  {
    hide Decimals, LeadingZero, Delimited;
    assert Munched(lib, s);
    var rest := ParseNumber(lib, s).rest;
    t := s[..lib.strtod(s).consumed];
    assert t + rest == s;
    assert Decimals(t);
    assert UsesJust(lib, t, rest);
    NumeralIsDecimal(t);
    assert Peek(t) == Peek(s);
  }
}
