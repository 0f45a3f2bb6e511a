/** How a configuration file is cut into lines, and a line into its parts. */
module CfgLines {
  import opened CString
  import opened Wrappers
  import opened CfgModel
  import opened CfgRoundTrip

  // ----- characters that do not count -----------------------------------------

  /** The text without its bytes outside ASCII. */
  function AsciiOnly(text: string): (r: string)
    ensures |r| <= |text|
  {
    if text == "" then ""
    else (if (text[0] as int) < 128 then [text[0]] else "") + AsciiOnly(text[1..])
  }

  lemma {:induction false} ScanAscii(text: string, raw: string, room: nat)
    requires |raw| <= room && 0 < room
    ensures var s := Scan(text, raw, room);
            Scan(AsciiOnly(text), raw, room) == Scanned(s.raw, AsciiOnly(s.rest), s.eof)
    decreases |text|
  {
    if text != "" {
      var c, rest := text[0], text[1..];
      assert IsAscii(c) ==> AsciiOnly(text)[0] == c && AsciiOnly(text)[1..] == AsciiOnly(rest);
      assert !IsAscii(c) ==> AsciiOnly(text) == AsciiOnly(rest);
      if !IsAscii(c) {
        ScanAscii(rest, raw, room);
      } else if c != NEWLINE && raw == [] {
        ScanAscii(rest, if IsSpace(c) then [] else [c], room);
      } else if c != NEWLINE && |raw| < room {
        ScanAscii(rest, raw + [c], room);
      }
    }
  }

  lemma {:induction false} ReadFromAscii(text: string, buffer: string, r: Reader)
    requires |buffer| == LINE_SIZE && ValidReader(r)
    ensures ReadFrom(AsciiOnly(text), false, buffer, r) == ReadFrom(text, false, buffer, r)
    decreases |text|
  {
    hide Scan, Filled, TakeLine, AsciiOnly;
    ScanAscii(text, "", LINE_SIZE - 1);
    var s := Scan(text, "", LINE_SIZE - 1);
    FilledTerminated(buffer, s.raw);
    if !s.eof {
      ReadFromAscii(s.rest, Filled(buffer, s.raw), TakeLine(r, Filled(buffer, s.raw)));
    }
  }

  /** Bytes outside ASCII are as if they were not there. */
  lemma NonAsciiIgnored(text: string, buffer: string)
    requires |buffer| == LINE_SIZE
    ensures ReadText(text, buffer) == ReadText(AsciiOnly(text), buffer)
  {
    ReadFromAscii(text, buffer, Reader([], None, ""));
  }

  // ----- lines ----------------------------------------------------------------

  lemma {:induction false} ScanBlanks(ws: string, text: string, room: nat)
    requires AllSpace(ws) && NEWLINE !in ws && 0 < room
    ensures Scan(ws + text, "", room) == Scan(text, "", room)
  {
    if ws == "" {
      assert ws + text == text;
    } else {
      assert (ws + text)[0] == ws[0] && (ws + text)[1..] == ws[1..] + text;
      ScanBlanks(ws[1..], text, room);
    }
  }

  lemma {:induction false} TrimEndBlanks(l: string, ws: string)
    requires AllSpace(ws)
    ensures TrimEnd(l + ws) == TrimEnd(l)
    decreases |ws|
  {
    if ws == "" {
      assert l + ws == l;
    } else {
      var k := |ws| - 1;
      assert (l + ws)[..|l + ws| - 1] == l + ws[..k];
      TrimEndBlanks(l, ws[..k]);
    }
  }

  lemma BlanksPlain(ws: string)
    requires AllSpace(ws) && NEWLINE !in ws
    ensures Plain(ws)
  {
  }

  /** White space around a line does not count. */
  lemma BlanksIgnored(before: string, l: string, after: string, rest: string, buffer: string, r: Reader)
    requires AllSpace(before) && NEWLINE !in before && AllSpace(after) && NEWLINE !in after
    requires GoodLine(l) && SelfContained(l) && |l| + |after| < 1022 && |buffer| == LINE_SIZE && ValidReader(r)
    ensures var b, b' := Filled(buffer, l + after), Filled(buffer, l);
            && Terminated(b) && Terminated(b') && TakeLine(r, b) == TakeLine(r, b')
            && ReadFrom(before + (l + after + "\n" + rest), false, buffer, r) == ReadFrom(rest, false, b, TakeLine(r, b))
  {
    hide Filled, TakeLine, TrimEnd, SelfContained, Scan;
    var raw := l + after;
    BlanksPlain(after);
    ScanBlanks(before, raw + "\n" + rest, LINE_SIZE - 1);
    ScanFrom(l, after, rest);
    TrimEndBlanks(l, after);
    TrimmedLine(l);
    TakeSame(r, buffer, raw, l);
  }

  lemma TrimmedLine(l: string)
    requires GoodLine(l)
    ensures TrimEnd(l) == l
  {
  }

  lemma ScanFrom(l: string, after: string, rest: string)
    requires GoodLine(l) && Plain(after) && |l| + |after| < 1022
    ensures Scan(l + after + "\n" + rest, "", LINE_SIZE - 1) == Scanned(l + after, rest, false)
  {
    hide Scan;
    var text, tail := l + after + "\n" + rest, l[1..] + after;
    assert text[0] == l[0] && text[1..] == tail + "\n" + rest;
    ScanFirst(text);
    ScanOn([l[0]], tail, rest, LINE_SIZE - 1);
    assert [l[0]] + tail == l + after;
  }

  lemma ScanFirst(text: string)
    requires text != "" && IsAscii(text[0]) && !IsSpace(text[0])
    ensures Scan(text, "", LINE_SIZE - 1) == Scan(text[1..], [text[0]], LINE_SIZE - 1)
  {
  }

  lemma TakeSame(r: Reader, buffer: string, raw: string, raw': string)
    requires ValidReader(r) && |buffer| == LINE_SIZE && |raw| < LINE_SIZE && |raw'| < LINE_SIZE
    requires TrimEnd(raw) == TrimEnd(raw') && SelfContained(TrimEnd(raw))
    ensures Terminated(Filled(buffer, raw)) && Terminated(Filled(buffer, raw'))
    ensures TakeLine(r, Filled(buffer, raw)) == TakeLine(r, Filled(buffer, raw'))
  {
    hide Filled, TrimEnd, CStr, OpenSection, AddItem, KeywordEnd, IsHeader, HeaderName, Trim, NulFree;
    var l := TrimEnd(raw);
    FilledHolds(buffer, raw);
    FilledHolds(buffer, raw');
    if l != "" && !IsHeader(l) && l[0] != ';' && l[0] != '#' {
      ValueInLine(l, Filled(buffer, raw), KeywordEnd(l));
      ValueInLine(l, Filled(buffer, raw'), KeywordEnd(l));
    }
  }

  lemma {:induction false} ScanFull(raw: string, l: string, c: char, rest: string, room: nat)
    requires raw != [] && Plain(l) && |raw| + |l| == room && IsAscii(c) && c != NEWLINE
    ensures Scan(l + [c] + rest, raw, room) == Scanned(raw + l, rest, false)
    decreases |l|
  {
    var text := l + [c] + rest;
    if l == [] {
      assert text[0] == c && text[1..] == rest && raw + l == raw;
    } else {
      assert text[0] == l[0] && text[1..] == l[1..] + [c] + rest;
      ScanFull(raw + [l[0]], l[1..], c, rest, room);
      assert raw + [l[0]] + l[1..] == raw + l;
    }
  }

  /** A line of more than 1021 characters is cut there, its next character is lost, and what
    follows is a line of its own. */
  lemma LongLineCut(l: string, c: char, rest: string)
    requires Plain(l) && |l| == 1021 && !IsSpace(l[0]) && IsAscii(c) && c != NEWLINE
    ensures Scan(l + [c] + rest, "", LINE_SIZE - 1) == Scanned(l, rest, false)
  {
    hide Scan;
    var text := l + [c] + rest;
    assert text[0] == l[0] && text[1..] == l[1..] + [c] + rest;
    ScanFirst(text);
    ScanFull([l[0]], l[1..], c, rest, LINE_SIZE - 1);
    assert [l[0]] + l[1..] == l;
  }

  // ----- the parts of a line --------------------------------------------------

  /** White space and other control characters. */
  predicate IsJunk(c: char) {
    0 < c as int <= 32
  }

  lemma {:induction false} SkipJunkPrefix(junk: string, s: string)
    requires forall i :: 0 <= i < |junk| ==> IsJunk(junk[i])
    requires s == "" || !IsJunk(s[0])
    ensures SkipJunk(junk + s) == s
  {
    if junk == "" {
      assert junk + s == s;
    } else {
      assert (junk + s)[1..] == junk[1..] + s;
      SkipJunkPrefix(junk[1..], s);
    }
  }

  /** `trim` takes off blanks and control characters in front and white space behind. */
  lemma TrimExactly(junk: string, s: string, ws: string)
    requires (forall i :: 0 <= i < |junk| ==> IsJunk(junk[i])) && AllSpace(ws)
    requires s != "" && !IsJunk(s[0]) && !IsSpace(s[|s| - 1])
    ensures Trim(junk + s + ws) == s
  {
    assert junk + s + ws == junk + (s + ws);
    SkipJunkPrefix(junk, s + ws);
    TrimEndBlanks(s, ws);
  }

  /** At most 63 characters of a section name count. */
  lemma HeaderCut(name: string, more: string)
    requires ']' !in name
    ensures var l := "[" + name + "]" + more;
            IsHeader(l) && HeaderName(l) == Upper(if |name| <= 63 then name else name[..63])
  {
    var l := "[" + name + "]" + more;
    assert l[0] == '[' && l[|name| + 1] == ']';
    forall i | 0 <= i < |name| + 1
      ensures l[i] != ']'
    {
      assert i > 0 ==> l[i] == name[i - 1];
    }
    IndexOfIs(l, ']', |name| + 1);
    assert l[1..|name| + 1] == name && (|name| > 63 ==> l[1..64] == name[..63]);
  }

  /** At most 63 characters of a keyword count; the next one is dropped like an `=`, and the
    value starts behind it. */
  lemma KeywordCut(key: string, value: string)
    requires '=' !in key && GoodLine(key + "=" + value)
    ensures var l := key + "=" + value;
            KeywordEnd(l) < |l| &&
            ItemRead(l, None) ==
            if |key| <= 63 then Item(Trim(Upper(key)), None, value)
            else Item(Trim(Upper(key[..63])), None, key[64..] + "=" + value)
  {
    var l := key + "=" + value;
    IndexOfIs(l, '=', |key|);
    if |key| <= 63 {
      assert l[..|key|] == key && l[|key| + 1..] == value;
    } else {
      assert l[..63] == key[..63] && l[64..] == key[64..] + "=" + value;
    }
  }

  /** The item of a line: its keyword in stored form, and the text behind the keyword's
    end. */
  function ItemRead(l: string, comment: Option<string>): Item
    requires KeywordEnd(l) < |l|
  {
    Item(Trim(Upper(l[..KeywordEnd(l)])), comment, l[KeywordEnd(l) + 1..])
  }
}
