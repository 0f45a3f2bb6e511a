/** What printed text looks like: compact text has no blanks outside literals, pretty text
  is compact text laid out in lines, and slashes are escaped or not throughout. All of it
  is said of the text alone, character by character. */
module JsonLayout {
  import opened CString
  import opened Libc
  import opened JsonValue
  import opened JsonPrinter
  import JsonText
  import JsonGrammar
  import Utf8

  // ----- literals -------------------------------------------------------------

  /** The characters of a literal behind its opening quote, the closing one included. */
  function Closing(s: string): (n: nat)
    ensures n <= |s|
    decreases |s|
  {
    if s == "" then 0
    else if s[0] == '\"' then 1
    else if s[0] == '\\' && |s| >= 2 then 2 + Closing(s[2..])
    else 1 + Closing(s[1..])
  }

  function LiteralEnd(s: string): (n: nat)
    requires s != ""
    ensures 1 <= n <= |s|
  {
    1 + Closing(s[1..])
  }

  lemma ClosingHarmless(p: string, t: string)
    requires JsonText.Harmless(p)
    ensures Closing(p + t) == |p| + Closing(t)
    decreases |p|
  {
    if p == "" {
      assert p + t == t;
    } else {
      assert (p + t)[1..] == p[1..] + t;
      ClosingHarmless(p[1..], t);
    }
  }

  lemma ClosingShielded(e: string, t: string)
    requires JsonText.Shielded(e)
    ensures Closing(e + t) == |e| + Closing(t)
  {
    if |e| == 1 && JsonText.Harmless(e) {
      ClosingHarmless(e, t);
    } else {
      assert (e + t)[2..] == e[2..] + t;
      ClosingHarmless(e[2..], t);
    }
  }

  lemma {:induction false} ClosingEscaped(s: string, slashes: bool, t: string)
    ensures Closing(JsonText.Escape(s, slashes) + t) == |JsonText.Escape(s, slashes)| + Closing(t)
  {
    hide JsonText.EscapeChar, Closing, JsonText.Shielded;
    if s == "" {
      assert JsonText.Escape(s, slashes) + t == t;
    } else {
      var e, tail := JsonText.EscapeChar(s[0], slashes), JsonText.Escape(s[1..], slashes) + t;
      assert JsonText.Escape(s, slashes) + t == e + tail;
      JsonText.EscapeShields(s[0], slashes);
      ClosingShielded(e, tail);
      ClosingEscaped(s[1..], slashes, t);
    }
  }

  /** A quoted string is one literal. */
  lemma QuoteEnds(s: string, slashes: bool, rest: string)
    ensures var q := JsonText.Quote(s, slashes);
            |q| >= 2 && q[0] == '\"' && LiteralEnd(q + rest) == |q|
  {
    hide JsonText.Escape;
    var e, t := JsonText.Escape(s, slashes), "\"" + rest;
    assert (JsonText.Quote(s, slashes) + rest)[1..] == e + t;
    ClosingEscaped(s, slashes, t);
    assert Closing(t) == 1;
  }

  // ----- blanks, brackets, slashes --------------------------------------------

  predicate Opens(c: char) {
    c == '[' || c == '{'
  }

  predicate Closes(c: char) {
    c == ']' || c == '}'
  }

  /** The text without the white space outside its literals. */
  function Bare(s: string): (r: string)
    ensures |r| <= |s|
    decreases |s|
  {
    if s == "" then ""
    else if s[0] == '\"' then s[..LiteralEnd(s)] + Bare(s[LiteralEnd(s)..])
    else (if IsSpace(s[0]) then "" else [s[0]]) + Bare(s[1..])
  }

  /** A line break and four blanks for each open bracket. */
  function NewLine(depth: nat): string {
    "\n" + seq(4 * depth, _ => ' ')
  }

  /** Outside literals, a new line behind every comma, behind every bracket that opens, and
    before every bracket that closes, unless there is nothing between the two; and a blank
    behind every colon. */
  function Pretty(s: string, depth: nat): string
    decreases |s|
  {
    if s == "" then ""
    else if s[0] == '\"' then s[..LiteralEnd(s)] + Pretty(s[LiteralEnd(s)..], depth)
    else if Opens(s[0]) && Closes(Peek(s[1..])) then s[..2] + Pretty(s[2..], depth)
    else if Opens(s[0]) then [s[0]] + NewLine(depth + 1) + Pretty(s[1..], depth + 1)
    else if Closes(s[0]) then NewLine(Outer(depth)) + [s[0]] + Pretty(s[1..], Outer(depth))
    else if s[0] == ',' then "," + NewLine(depth) + Pretty(s[1..], depth)
    else if s[0] == ':' then ": " + Pretty(s[1..], depth)
    else [s[0]] + Pretty(s[1..], depth)
  }

  function Outer(depth: nat): nat {
    if depth == 0 then 0 else depth - 1
  }

  /** The number of blanks in front. */
  function Blanks(s: string): (n: nat)
    ensures n <= |s|
  {
    if s == "" || s[0] != ' ' then 0 else 1 + Blanks(s[1..])
  }

  /** Every line behind the first begins with exactly four blanks for each bracket that is
    open at its first other character, a closing bracket counting as closed; and no line
    ends inside a literal. */
  predicate Indented(s: string, depth: nat)
    decreases |s|
  {
    s == "" ||
    if s[0] == '\"' then NEWLINE !in s[..LiteralEnd(s)] && Indented(s[LiteralEnd(s)..], depth)
    else if Opens(s[0]) then Indented(s[1..], depth + 1)
    else if Closes(s[0]) then Indented(s[1..], Outer(depth))
    else if s[0] == NEWLINE then
      var n := Blanks(s[1..]);
      n == 4 * (if Closes(Peek(s[1 + n..])) then Outer(depth) else depth) && Indented(s[1 + n..], depth)
    else Indented(s[1..], depth)
  }

  /** The inside of a literal: no raw control characters, and a slash stands behind the
    backslash that escapes it exactly when slashes are escaped. */
  predicate Inner(s: string, slashes: bool)
    decreases |s|
  {
    s == "" ||
    if s[0] == '\\' then
      |s| >= 2 && s[1] >= ' ' && (s[1] == '/' ==> slashes) && Inner(s[2..], slashes)
    else s[0] >= ' ' && (s[0] == '/' ==> !slashes) && Inner(s[1..], slashes)
  }

  /** Literals are as they should be, and outside them there are no slashes. */
  predicate Clean(s: string, slashes: bool)
    decreases |s|
  {
    s == "" ||
    if s[0] == '\"' then
      var n := LiteralEnd(s);
      n >= 2 && s[n - 1] == '\"' && Inner(s[1..n - 1], slashes) && Clean(s[n..], slashes)
    else s[0] != '/' && Clean(s[1..], slashes)
  }

  predicate NoBlanks(s: string) {
    Bare(s) == s
  }

  // ----- compact text ---------------------------------------------------------

  function Compact(st: Style): Style {
    Style(false, st.slashes)
  }

  /** Characters of numbers and of the three names. */
  predicate Word(t: string) {
    forall i :: 0 <= i < |t| ==> WordChar(t[i])
  }

  predicate WordChar(c: char) {
    NumberChar(c) || 'a' <= c <= 'z'
  }

  /** White space is taken out of the rest of a text, and the rest is clean, as if the
    token were not there. */
  predicate Adds(t: string, slashes: bool, rest: string) {
    && Bare(t + rest) == t + Bare(rest)
    && Clean(t + rest, slashes) == Clean(rest, slashes)
  }

  ghost predicate Tight(t: string, slashes: bool) {
    forall rest :: Adds(t, slashes, rest)
  }

  lemma TightNothing(slashes: bool)
    ensures Tight("", slashes)
  {
    forall rest
      ensures Adds("", slashes, rest)
    {
      assert "" + rest == rest;
    }
  }

  lemma TightTwo(a: string, b: string, slashes: bool)
    requires Tight(a, slashes) && Tight(b, slashes)
    ensures Tight(a + b, slashes)
  {
    hide Bare, Clean;
    forall rest
      ensures Adds(a + b, slashes, rest)
    {
      assert Adds(a, slashes, b + rest) && Adds(b, slashes, rest);
      assert a + b + rest == a + (b + rest);
    }
  }

  lemma TightChar(c: char, slashes: bool)
    requires WordChar(c) || Opens(c) || Closes(c) || c == ',' || c == ':'
    ensures Tight([c], slashes)
  {
    forall rest
      ensures Adds([c], slashes, rest)
    {
      assert ([c] + rest)[1..] == rest;
    }
  }

  lemma {:induction false} TightWord(t: string, slashes: bool)
    requires Word(t)
    ensures Tight(t, slashes)
  {
    hide WordChar, Tight;
    if t == "" {
      TightNothing(slashes);
    } else {
      TightChar(t[0], slashes);
      TightWord(t[1..], slashes);
      TightTwo([t[0]], t[1..], slashes);
      assert t == [t[0]] + t[1..];
    }
  }

  lemma TightQuote(s: string, slashes: bool)
    ensures Tight(JsonText.Quote(s, slashes), slashes)
  {
    hide JsonText.Escape, LiteralEnd, Inner;
    var q := JsonText.Quote(s, slashes);
    EscapeInner(s, slashes);
    forall rest
      ensures Adds(q, slashes, rest)
    {
      QuoteEnds(s, slashes, rest);
      assert (q + rest)[..|q|] == q && (q + rest)[|q|..] == rest;
      assert (q + rest)[1..|q| - 1] == JsonText.Escape(s, slashes);
    }
  }

  lemma {:induction false} EscapeInner(s: string, slashes: bool)
    ensures Inner(JsonText.Escape(s, slashes), slashes)
  {
    if s != "" {
      EscapeInner(s[1..], slashes);
      InnerChar(s[0], slashes, JsonText.Escape(s[1..], slashes));
    }
  }

  lemma InnerChar(c: char, slashes: bool, t: string)
    requires Inner(t, slashes)
    ensures Inner(JsonText.EscapeChar(c, slashes) + t, slashes)
  {
    var e := JsonText.EscapeChar(c, slashes);
    if |e| == 6 {
      hide Inner;
      var hex := "00" + [JsonText.HexDigit(c as int / 16), JsonText.HexDigit(c as int % 16)];
      assert e + t == "\\u" + (hex + t) && (e + t)[2..] == hex + t;
      InnerPlain(hex, slashes, t);
      InnerShielded(e + t, slashes);
    } else {
      assert (e + t)[|e|..] == t;
    }
  }

  lemma InnerShielded(s: string, slashes: bool)
    requires |s| >= 2 && s[0] == '\\' && s[1] == 'u' && Inner(s[2..], slashes)
    ensures Inner(s, slashes)
  {
  }

  lemma {:induction false} InnerPlain(p: string, slashes: bool, t: string)
    requires Inner(t, slashes) && forall i :: 0 <= i < |p| ==> p[i] >= ' ' && p[i] != '/' && p[i] != '\\'
    ensures Inner(p + t, slashes)
  {
    if p == "" {
      assert p + t == t;
    } else {
      assert (p + t)[1..] == p[1..] + t;
      InnerPlain(p[1..], slashes, t);
    }
  }

  /** Compact text of a value. */
  lemma {:induction false} TightPrint(lib: Numbers, v: Json, level: nat, slashes: bool)
    requires WellFormed(lib, v)
    ensures Tight(Print(lib, v, level, Style(false, slashes)), slashes)
    decreases v, 1, 0
  {
    hide Tight, JsonText.Quote, WellFormed, PrintItems, PrintMembers, Word, Lawful;
    assert "[" + "]" == "[]" && "{" + "}" == "{}";
    match v
    case String(s) => TightQuote(s, slashes);
    case Array(items) =>
      Parts(lib, v);
      TightItems(lib, items, 0, level + 1, slashes);
      TightBrackets("[", PrintItems(lib, items, 0, level + 1, Style(false, slashes)), "]", slashes);
    case Object(ms) =>
      Parts(lib, v);
      TightMembers(lib, ms, 0, level + 1, slashes);
      TightBrackets("{", PrintMembers(lib, ms, 0, level + 1, Style(false, slashes)), "}", slashes);
    case _ =>
      ScalarWord(lib, v, level, Style(false, slashes));
      TightWord(Print(lib, v, level, Style(false, slashes)), slashes);
  }

  lemma Parts(lib: Numbers, v: Json)
    requires WellFormed(lib, v)
    ensures v.Array? ==> forall i :: 0 <= i < |v.items| ==> WellFormed(lib, v.items[i])
    ensures v.Object? ==> UniqueNames(v.members) && forall i :: 0 <= i < |v.members| ==> WellFormed(lib, v.members[i].value)
  {
  }

  lemma ScalarWord(lib: Numbers, v: Json, level: nat, st: Style)
    requires WellFormed(lib, v) && (v.Null? || v.Boolean? || v.Number?)
    ensures Word(Print(lib, v, level, st))
  {
  }

  lemma TightBrackets(open: string, body: string, close: string, slashes: bool)
    requires (open == "[" && close == "]") || (open == "{" && close == "}")
    requires Tight(body, slashes)
    ensures Tight(open + "" + body + "" + close, slashes) && Tight(open + close, slashes)
  {
    hide Tight;
    TightChar(open[0], slashes);
    TightChar(close[0], slashes);
    TightTwo(open, close, slashes);
    TightTwo(open, body, slashes);
    TightTwo(open + body, close, slashes);
    assert open + "" + body + "" + close == open + body + close;
  }

  lemma {:induction false} TightItems(lib: Numbers, items: seq<Json>, i: nat, level: nat, slashes: bool)
    requires i <= |items| && forall k :: 0 <= k < |items| ==> WellFormed(lib, items[k])
    ensures Tight(PrintItems(lib, items, i, level, Style(false, slashes)), slashes)
    decreases items, 0, |items| - i
  {
    hide Tight, WellFormed, Print, Separator, Pad, Lawful;
    var st := Style(false, slashes);
    TightNothing(slashes);
    if i < |items| {
      var p, sep, more := Print(lib, items[i], level, st), Separator(i, |items|, st), PrintItems(lib, items, i + 1, level, st);
      NoPad(level, slashes);
      TightPrint(lib, items[i], level, slashes);
      TightSeparator(i, |items|, slashes);
      TightItems(lib, items, i + 1, level, slashes);
      TightTwo("", p, slashes);
      TightTwo("" + p, sep, slashes);
      TightTwo("" + p + sep, more, slashes);
    }
  }

  lemma NoPad(level: nat, slashes: bool)
    ensures Pad(Style(false, slashes), level) == ""
  {
  }

  lemma TightSeparator(i: nat, n: nat, slashes: bool)
    ensures Tight(Separator(i, n, Style(false, slashes)), slashes)
  {
    hide Tight;
    TightChar(',', slashes);
    TightNothing(slashes);
    assert "," + "" == "," && "" + "" == "";
  }

  lemma {:induction false} TightMembers(lib: Numbers, ms: seq<Member>, i: nat, level: nat, slashes: bool)
    requires i <= |ms| && forall k :: 0 <= k < |ms| ==> WellFormed(lib, ms[k].value)
    ensures Tight(PrintMembers(lib, ms, i, level, Style(false, slashes)), slashes)
    decreases ms, 0, |ms| - i
  {
    hide Tight, WellFormed, Print, Separator, Pad, JsonText.Quote, Lawful;
    var st := Style(false, slashes);
    TightNothing(slashes);
    if i < |ms| {
      var k := IndexOf(ms, ms[i].name);
      var q, p, sep, more := JsonText.Quote(ms[i].name, slashes), Print(lib, ms[k].value, level, st), Separator(i, |ms|, st),
                             PrintMembers(lib, ms, i + 1, level, st);
      NoPad(level, slashes);
      TightQuote(ms[i].name, slashes);
      TightChar(':', slashes);
      TightPrint(lib, ms[k].value, level, slashes);
      TightSeparator(i, |ms|, slashes);
      TightMembers(lib, ms, i + 1, level, slashes);
      TightTwo("", q, slashes);
      TightTwo("" + q, ":", slashes);
      TightTwo("" + q + ":", p, slashes);
      TightTwo("" + q + ":" + p, sep, slashes);
      TightTwo("" + q + ":" + p + sep, more, slashes);
    }
  }

  /** Compact text has no white space outside its literals, and is clean. */
  lemma CompactExactly(lib: Numbers, v: Json, level: nat, slashes: bool)
    requires WellFormed(lib, v)
    ensures var t := Print(lib, v, level, Style(false, slashes)); NoBlanks(t) && Clean(t, slashes)
  {
    hide Print, WellFormed;
    var t := Print(lib, v, level, Style(false, slashes));
    TightPrint(lib, v, level, slashes);
    assert Adds(t, slashes, "");
    assert t + "" == t;
  }

  // ----- pretty text ----------------------------------------------------------

  /** Laid out, the text begins with `u` where it began with `t`. */
  predicate LaidBefore(t: string, u: string, depth: nat, rest: string) {
    Pretty(t + rest, depth) == u + Pretty(rest, depth)
  }

  ghost predicate Lays(t: string, u: string, depth: nat) {
    forall rest :: LaidBefore(t, u, depth, rest)
  }

  lemma LaysTwo(a: string, a': string, b: string, b': string, depth: nat)
    requires Lays(a, a', depth) && Lays(b, b', depth)
    ensures Lays(a + b, a' + b', depth)
  {
    hide Pretty;
    forall rest
      ensures LaidBefore(a + b, a' + b', depth, rest)
    {
      assert LaidBefore(a, a', depth, b + rest) && LaidBefore(b, b', depth, rest);
      assert a + b + rest == a + (b + rest);
    }
  }

  lemma LaysChar(c: char, u: string, depth: nat)
    requires WordChar(c) || c == ',' || c == ':'
    requires u == [c] + (if c == ',' then NewLine(depth) else if c == ':' then " " else "")
    ensures Lays([c], u, depth)
  {
    forall rest
      ensures LaidBefore([c], u, depth, rest)
    {
      assert ([c] + rest)[1..] == rest;
    }
  }

  lemma LaysNothing(depth: nat)
    ensures Lays("", "", depth)
  {
    forall rest
      ensures LaidBefore("", "", depth, rest)
    {
      assert "" + rest == rest;
    }
  }

  lemma {:induction false} LaysWord(t: string, depth: nat)
    requires Word(t)
    ensures Lays(t, t, depth)
  {
    hide WordChar, Lays;
    if t == "" {
      LaysNothing(depth);
    } else {
      NoComma(t[0]);
      assert [t[0]] + "" == [t[0]];
      LaysChar(t[0], [t[0]], depth);
      LaysWord(t[1..], depth);
      LaysTwo([t[0]], [t[0]], t[1..], t[1..], depth);
      assert t == [t[0]] + t[1..];
    }
  }

  lemma NoComma(c: char)
    requires WordChar(c)
    ensures WordChar(c) && c != ',' && c != ':'
  {
  }

  lemma LaysQuote(s: string, slashes: bool, depth: nat)
    ensures Lays(JsonText.Quote(s, slashes), JsonText.Quote(s, slashes), depth)
  {
    hide JsonText.Quote, LiteralEnd;
    var q := JsonText.Quote(s, slashes);
    forall rest
      ensures LaidBefore(q, q, depth, rest)
    {
      QuoteEnds(s, slashes, rest);
      assert (q + rest)[..|q|] == q && (q + rest)[|q|..] == rest;
    }
  }

  lemma PrettyOpen(open: char, inner: string, depth: nat)
    requires Opens(open) && !Closes(Peek(inner))
    ensures Pretty([open] + inner, depth) == [open] + NewLine(depth + 1) + Pretty(inner, depth + 1)
  {
    hide NewLine;
    assert ([open] + inner)[1..] == inner;
  }

  lemma PrettyClose(close: char, rest: string, depth: nat)
    requires Closes(close)
    ensures Pretty([close] + rest, depth + 1) == NewLine(depth) + [close] + Pretty(rest, depth)
  {
    hide NewLine;
    assert ([close] + rest)[1..] == rest;
  }

  lemma LaysBrackets(open: char, body: string, u: string, close: char, depth: nat)
    requires Opens(open) && Closes(close) && body != "" && !Closes(body[0]) && Lays(body, u, depth + 1)
    ensures Lays([open] + body + [close], [open] + NewLine(depth + 1) + u + NewLine(depth) + [close], depth)
  {
    var t, laid := [open] + body + [close], [open] + NewLine(depth + 1) + u + NewLine(depth) + [close];
    forall rest
      ensures LaidBefore(t, laid, depth, rest)
    {
      hide NewLine, Lays, Pretty, Closes, Opens;
      assert t + rest == [open] + (body + ([close] + rest));
      LaysAt(body, u, depth + 1, [close] + rest);
      PrettyOpen(open, body + ([close] + rest), depth);
      PrettyClose(close, rest, depth);
    }
  }

  lemma LaysAt(t: string, u: string, depth: nat, rest: string)
    requires Lays(t, u, depth)
    ensures Pretty(t + rest, depth) == u + Pretty(rest, depth)
  {
    assert LaidBefore(t, u, depth, rest);
  }

  lemma LaysEmpty(open: char, close: char, depth: nat)
    requires Opens(open) && Closes(close)
    ensures Lays([open, close], [open, close], depth)
  {
    forall rest
      ensures LaidBefore([open, close], [open, close], depth, rest)
    {
      var s := [open, close] + rest;
      assert s[1..][0] == close && s[..2] == [open, close] && s[2..] == rest;
    }
  }

  lemma {:induction false} IndentIsBlanks(depth: nat)
    ensures "\n" + Indent(depth) == NewLine(depth)
  {
    if depth > 0 {
      IndentIsBlanks(depth - 1);
      assert Indent(depth - 1) == ("\n" + Indent(depth - 1))[1..];
    }
  }

  /** Pretty text is compact text laid out. */
  lemma {:induction false} LaysPrint(lib: Numbers, v: Json, level: nat, depth: nat, slashes: bool)
    requires WellFormed(lib, v)
    ensures Lays(Print(lib, v, level, Style(false, slashes)), Print(lib, v, depth, Style(true, slashes)), depth)
    decreases v, 1, 0
  {
    hide Lays, JsonText.Quote, WellFormed, PrintItems, PrintMembers, Word, Lawful, NewLine, Indent;
    var st := Style(false, slashes);
    match v
    case String(s) => LaysQuote(s, slashes, depth);
    case Array(items) =>
      if items == [] {
        LaysEmpty('[', ']', depth);
      } else {
        Parts(lib, v);
        var u := LaysItems(lib, items, 0, level + 1, depth + 1, slashes);
        LaysList('[', PrintItems(lib, items, 0, level + 1, st), u, ']', depth);
        assert "[" + "" + PrintItems(lib, items, 0, level + 1, st) + "" + "]" ==
               "[" + PrintItems(lib, items, 0, level + 1, st) + "]";
      }
    case Object(ms) =>
      if ms == [] {
        LaysEmpty('{', '}', depth);
      } else {
        Parts(lib, v);
        var u := LaysMembers(lib, ms, 0, level + 1, depth + 1, slashes);
        LaysList('{', PrintMembers(lib, ms, 0, level + 1, st), u, '}', depth);
        assert "{" + "" + PrintMembers(lib, ms, 0, level + 1, st) + "" + "}" ==
               "{" + PrintMembers(lib, ms, 0, level + 1, st) + "}";
      }
    case _ =>
      ScalarWord(lib, v, level, st);
      LaysWord(Print(lib, v, level, st), depth);
  }

  lemma LaysList(open: char, body: string, u: string, close: char, depth: nat)
    requires Opens(open) && Closes(close) && body != "" && !Closes(body[0]) && Lays(body, u, depth + 1)
    ensures Lays([open] + body + [close],
                 [open] + "\n" + (Indent(depth + 1) + u + "\n") + Indent(depth) + [close], depth)
  {
    hide Lays, NewLine, Indent;
    LaysBrackets(open, body, u, close, depth);
    IndentIsBlanks(depth);
    IndentIsBlanks(depth + 1);
    assert [open] + "\n" + (Indent(depth + 1) + u + "\n") + Indent(depth) + [close] ==
           [open] + ("\n" + Indent(depth + 1)) + u + ("\n" + Indent(depth)) + [close];
  }

  lemma NotClosing(lib: Numbers, v: Json, level: nat, st: Style)
    requires WellFormed(lib, v)
    ensures var t := Print(lib, v, level, st); t != "" && !Closes(t[0])
  {
    hide PrintItems, PrintMembers, JsonText.Escape;
  }

  /** `u` is what the elements from `i` on are laid out as, without the first padding and
    the last line break. */
  lemma {:induction false} LaysItems(lib: Numbers, items: seq<Json>, i: nat, level: nat, depth: nat, slashes: bool)
    returns (u: string)
    requires i < |items| && forall k :: 0 <= k < |items| ==> WellFormed(lib, items[k])
    ensures var t := PrintItems(lib, items, i, level, Style(false, slashes));
            t != "" && !Closes(t[0]) && Lays(t, u, depth)
    ensures PrintItems(lib, items, i, depth, Style(true, slashes)) == Indent(depth) + u + "\n"
    decreases items, 0, |items| - i
  {
    hide Lays, WellFormed, Print, Lawful, NewLine, Indent, PrintItems;
    var p, p' := Print(lib, items[i], level, Style(false, slashes)), Print(lib, items[i], depth, Style(true, slashes));
    NotClosing(lib, items[i], level, Style(false, slashes));
    LaysPrint(lib, items[i], level, depth, slashes);
    ItemsStep(lib, items, i, level, Style(false, slashes));
    ItemsStep(lib, items, i, depth, Style(true, slashes));
    if i + 1 < |items| {
      var more := PrintItems(lib, items, i + 1, level, Style(false, slashes));
      var u' := LaysItems(lib, items, i + 1, level, depth, slashes);
      u := LaysMore(p, p', more, u', depth);
      assert "" + p + ("," + "") + more == p + "," + more;
    } else {
      u := p';
      assert "" + p + ("" + "") + "" == p;
      assert Indent(depth) + u + ("" + "\n") + "" == Indent(depth) + u + "\n";
    }
  }

  lemma ItemsStep(lib: Numbers, items: seq<Json>, i: nat, level: nat, st: Style)
    requires i < |items|
    ensures PrintItems(lib, items, i, level, st) ==
            Pad(st, level) + Print(lib, items[i], level, st) + Separator(i, |items|, st)
            + (if i + 1 < |items| then PrintItems(lib, items, i + 1, level, st) else "")
  {
    hide Print, Pad, Separator, Lawful;
  }

  lemma LaysMore(p: string, p': string, more: string, u': string, depth: nat) returns (u: string)
    requires Lays(p, p', depth) && Lays(more, u', depth)
    ensures Lays(p + "," + more, u, depth)
    ensures Indent(depth) + p' + ("," + "\n") + (Indent(depth) + u' + "\n") == Indent(depth) + u + "\n"
  {
    hide Lays, NewLine, Indent;
    LaysChar(',', "," + NewLine(depth), depth);
    LaysTwo(p, p', ",", "," + NewLine(depth), depth);
    LaysTwo(p + ",", p' + ("," + NewLine(depth)), more, u', depth);
    u := p' + ("," + NewLine(depth)) + u';
    IndentIsBlanks(depth);
  }

  lemma {:induction false} LaysMembers(lib: Numbers, ms: seq<Member>, i: nat, level: nat, depth: nat, slashes: bool)
    returns (u: string)
    requires i < |ms| && UniqueNames(ms) && forall k :: 0 <= k < |ms| ==> WellFormed(lib, ms[k].value)
    ensures var t := PrintMembers(lib, ms, i, level, Style(false, slashes));
            t != "" && !Closes(t[0]) && Lays(t, u, depth)
    ensures PrintMembers(lib, ms, i, depth, Style(true, slashes)) == Indent(depth) + u + "\n"
    decreases ms, 0, |ms| - i
  {
    hide Lays, WellFormed, Print, Lawful, NewLine, Indent, PrintMembers, JsonText.Quote, UniqueNames;
    var q, v := JsonText.Quote(ms[i].name, slashes), ms[i].value;
    var p, p' := Print(lib, v, level, Style(false, slashes)), Print(lib, v, depth, Style(true, slashes));
    QuoteEnds(ms[i].name, slashes, "");
    LaysQuote(ms[i].name, slashes, depth);
    LaysPrint(lib, v, level, depth, slashes);
    LaysKey(q, p, p', depth);
    MembersStep(lib, ms, i, level, Style(false, slashes));
    MembersStep(lib, ms, i, depth, Style(true, slashes));
    if i + 1 < |ms| {
      var more := PrintMembers(lib, ms, i + 1, level, Style(false, slashes));
      var u' := LaysMembers(lib, ms, i + 1, level, depth, slashes);
      u := LaysMore(q + ":" + p, q + ": " + p', more, u', depth);
      MoreText(Indent(depth), q, p, p', more, Indent(depth) + u' + "\n");
    } else {
      u := q + ": " + p';
      LastText(Indent(depth), q, p, p');
    }
  }

  lemma LaysKey(q: string, p: string, p': string, depth: nat)
    requires Lays(q, q, depth) && Lays(p, p', depth)
    ensures Lays(q + ":" + p, q + ": " + p', depth)
  {
    hide Lays;
    assert ": " == [':'] + " ";
    LaysChar(':', ": ", depth);
    LaysTwo(q, q, ":", ": ", depth);
    LaysTwo(q + ":", q + ": ", p, p', depth);
  }

  lemma MoreText(pad: string, q: string, p: string, p': string, more: string, more': string)
    ensures "" + q + ":" + p + ("," + "") + more == q + ":" + p + "," + more
    ensures pad + q + ": " + p' + ("," + "\n") + more' == pad + (q + ": " + p') + ("," + "\n") + more'
  {
  }

  lemma LastText(pad: string, q: string, p: string, p': string)
    ensures "" + q + ":" + p + ("" + "") + "" == q + ":" + p
    ensures pad + q + ": " + p' + ("" + "\n") + "" == pad + (q + ": " + p') + "\n"
  {
  }

  lemma MembersStep(lib: Numbers, ms: seq<Member>, i: nat, level: nat, st: Style)
    requires i < |ms| && UniqueNames(ms)
    ensures PrintMembers(lib, ms, i, level, st) ==
            Pad(st, level) + JsonText.Quote(ms[i].name, st.slashes) + Colon(st) + Print(lib, ms[i].value, level, st)
            + Separator(i, |ms|, st) + (if i + 1 < |ms| then PrintMembers(lib, ms, i + 1, level, st) else "")
  {
    hide Print, Pad, Separator, Colon, Lawful, JsonText.Quote;
    UniqueIndex(ms, i);
  }

  // ----- the lines of pretty text ---------------------------------------------

  lemma {:induction false} ClosingAgain(s: string, x: string, slashes: bool)
    requires var n := Closing(s); n > 0 && s[n - 1] == '\"' && Inner(s[..n - 1], slashes)
    ensures Closing(s[..Closing(s)] + x) == Closing(s)
    decreases |s|
  {
    var n := Closing(s);
    var t := s[..n] + x;
    if s[0] == '\"' {
    } else if s[0] == '\\' {
      assert s[..n - 1][0] == '\\' && n >= 3;
      assert s[..n - 1][2..] == s[2..][..n - 3];
      ClosingAgain(s[2..], x, slashes);
      assert t[2..] == s[2..][..n - 2] + x;
    } else {
      assert n >= 2 && s[..n - 1][1..] == s[1..][..n - 2];
      ClosingAgain(s[1..], x, slashes);
      assert t[1..] == s[1..][..n - 1] + x;
    }
  }

  /** The literal at the front of clean text ends where it did, whatever follows. */
  lemma LiteralAgain(s: string, x: string, slashes: bool)
    requires s != "" && s[0] == '\"' && Clean(s, slashes)
    ensures var n := LiteralEnd(s);
            var t := s[..n] + x;
            && t[0] == '\"' && LiteralEnd(t) == n && t[..n] == s[..n] && t[n..] == x
            && Clean(t, slashes) == Clean(x, slashes) && Clean(s[n..], slashes)
            && NEWLINE !in s[..n]
  {
    var n := LiteralEnd(s);
    var t := s[..n] + x;
    var u := s[1..];
    hide Clean, Inner, Closing;
    CleanLiteral(s, slashes);
    assert u[..n - 2] == s[1..n - 1] && u[n - 2] == s[n - 1];
    ClosingAgain(u, x, slashes);
    assert t[1..] == u[..n - 1] + x && t[1..n - 1] == s[1..n - 1] && t[n..] == x && t[n - 1] == s[n - 1];
    CleanLiteral(t, slashes);
    InnerNoNewline(s[1..n - 1], slashes);
    assert s[..n] == ['\"'] + s[1..n - 1] + ['\"'];
  }

  lemma CleanLiteral(s: string, slashes: bool)
    requires s != "" && s[0] == '\"'
    ensures var n := LiteralEnd(s);
            Clean(s, slashes) <==>
            n >= 2 && s[n - 1] == '\"' && Inner(s[1..n - 1], slashes) && Clean(s[n..], slashes)
  {
  }

  lemma {:induction false} InnerNoNewline(s: string, slashes: bool)
    requires Inner(s, slashes)
    ensures NEWLINE !in s
    decreases |s|
  {
    if s != "" {
      var k := if s[0] == '\\' then 2 else 1;
      InnerNoNewline(s[k..], slashes);
      assert s == s[..k] + s[k..];
    }
  }

  /** A new line adds white space, which is not seen. */
  lemma BlankLine(depth: nat, t: string, slashes: bool)
    ensures Bare(NewLine(depth) + t) == Bare(t) && Clean(NewLine(depth) + t, slashes) == Clean(t, slashes)
  {
    var pad := seq(4 * depth, _ => ' ');
    assert (NewLine(depth) + t)[1..] == pad + t;
    BlankRun(pad, t, slashes);
  }

  lemma {:induction false} BlankRun(pad: string, t: string, slashes: bool)
    requires forall i :: 0 <= i < |pad| ==> pad[i] == ' '
    ensures Bare(pad + t) == Bare(t) && Clean(pad + t, slashes) == Clean(t, slashes)
    ensures Peek(t) != ' ' ==> Blanks(pad + t) == |pad|
  {
    if pad == "" {
      assert pad + t == t;
    } else {
      assert (pad + t)[1..] == pad[1..] + t;
      BlankRun(pad[1..], t, slashes);
    }
  }

  lemma BareChar(c: char, t: string, slashes: bool)
    requires c != '\"' && c != '/' && !IsSpace(c)
    ensures Bare([c] + t) == [c] + Bare(t) && Clean([c] + t, slashes) == Clean(t, slashes)
  {
    assert ([c] + t)[1..] == t;
  }

  /** Text without white space outside literals goes on so. */
  lemma BareTail(s: string, slashes: bool)
    requires s != "" && NoBlanks(s) && Clean(s, slashes)
    ensures s[0] == '\"' ==> NoBlanks(s[LiteralEnd(s)..]) && Clean(s[LiteralEnd(s)..], slashes)
    ensures s[0] != '\"' ==> !IsSpace(s[0]) && s[0] != '/' && NoBlanks(s[1..]) && Clean(s[1..], slashes)
  {
    hide LiteralEnd;
    if s[0] == '\"' {
      var n := LiteralEnd(s);
      assert Bare(s)[n..] == Bare(s[n..]);
    } else {
      assert |Bare(s[1..])| <= |s[1..]|;
      assert !IsSpace(s[0]) ==> Bare(s)[1..] == Bare(s[1..]);
    }
  }

  lemma IndentedLiteral(lit: string, t: string, depth: nat)
    requires lit != "" && lit[0] == '\"' && LiteralEnd(lit + t) == |lit| && NEWLINE !in lit && Indented(t, depth)
    ensures Indented(lit + t, depth)
  {
    hide LiteralEnd;
    assert (lit + t)[..|lit|] == lit && (lit + t)[|lit|..] == t;
  }

  lemma IndentedChar(c: char, t: string, depth: nat)
    requires c != '\"' && c != NEWLINE
    requires Indented(t, if Opens(c) then depth + 1 else if Closes(c) then Outer(depth) else depth)
    ensures Indented([c] + t, depth)
  {
    assert ([c] + t)[1..] == t;
  }

  /** A new line in front of text that starts with something else than a blank. */
  lemma IndentedLine(t: string, depth: nat)
    requires Peek(t) != ' ' && Indented(t, depth)
    ensures Indented(NewLine(if Closes(Peek(t)) then Outer(depth) else depth) + t, depth)
  {
    hide Bare, Clean;
    var k := if Closes(Peek(t)) then Outer(depth) else depth;
    var pad := seq(4 * k, _ => ' ');
    var s := NewLine(k) + t;
    BlankRun(pad, t, true);
    assert s[1..] == pad + t && s[1 + |pad|..] == t;
  }

  /** `u` is `s` laid out with that many brackets open. */
  predicate LaidOut(u: string, s: string, depth: nat, slashes: bool) {
    && Bare(u) == s && Clean(u, slashes) && Indented(u, depth)
    && Peek(u) != ' ' && !Closes(Peek(u))
  }

  lemma LaidLiteral(s: string, u: string, depth: nat, slashes: bool)
    requires s != "" && s[0] == '\"' && Clean(s, slashes) && LaidOut(u, s[LiteralEnd(s)..], depth, slashes)
    ensures LaidOut(s[..LiteralEnd(s)] + u, s, depth, slashes)
  {
    var n := LiteralEnd(s);
    var t := s[..n] + u;
    hide Clean, LiteralEnd, Indented;
    LiteralAgain(s, u, slashes);
    IndentedLiteral(s[..n], u, depth);
    assert Bare(t) == s[..n] + s[n..];
  }

  lemma LaidChar(c: char, u: string, s: string, depth: nat, slashes: bool)
    requires c != '\"' && c != '/' && !IsSpace(c) && !Closes(c)
    requires LaidOut(u, s, if Opens(c) then depth + 1 else depth, slashes)
    ensures LaidOut([c] + u, [c] + s, depth, slashes)
  {
    hide Bare, Clean, Indented;
    BareChar(c, u, slashes);
    IndentedChar(c, u, depth);
  }

  lemma LaidPair(a: char, b: char, u: string, s: string, depth: nat, slashes: bool)
    requires Opens(a) && Closes(b) && LaidOut(u, s, depth, slashes)
    ensures LaidOut([a, b] + u, [a, b] + s, depth, slashes)
  {
    hide Bare, Clean, Indented;
    BareChar(b, u, slashes);
    BareChar(a, [b] + u, slashes);
    IndentedChar(b, u, depth + 1);
    IndentedChar(a, [b] + u, depth);
    assert [a, b] + u == [a] + ([b] + u) && [a, b] + s == [a] + ([b] + s);
  }

  lemma LaidBreak(c: char, u: string, s: string, depth: nat, slashes: bool)
    requires Opens(c) || c == ','
    requires LaidOut(u, s, if Opens(c) then depth + 1 else depth, slashes)
    ensures LaidOut([c] + NewLine(if Opens(c) then depth + 1 else depth) + u, [c] + s, depth, slashes)
  {
    hide Bare, Clean, Indented, NewLine;
    var d := if Opens(c) then depth + 1 else depth;
    BlankLine(d, u, slashes);
    BareChar(c, NewLine(d) + u, slashes);
    IndentedLine(u, d);
    IndentedChar(c, NewLine(d) + u, depth);
    assert [c] + NewLine(d) + u == [c] + (NewLine(d) + u);
  }

  lemma LaidClose(c: char, u: string, s: string, depth: nat, slashes: bool)
    requires Closes(c) && LaidOut(u, s, Outer(depth), slashes)
    ensures LaidOut(NewLine(Outer(depth)) + [c] + u, [c] + s, depth, slashes)
  {
    hide Bare, Clean, Indented;
    BareChar(c, u, slashes);
    BlankLine(Outer(depth), [c] + u, slashes);
    IndentedChar(c, u, depth);
    IndentedLine([c] + u, depth);
    assert NewLine(Outer(depth)) + [c] + u == NewLine(Outer(depth)) + ([c] + u);
  }

  lemma LaidColon(u: string, s: string, depth: nat, slashes: bool)
    requires LaidOut(u, s, depth, slashes)
    ensures LaidOut(": " + u, ":" + s, depth, slashes)
  {
    hide Bare, Clean, Indented;
    BlankRun(" ", u, slashes);
    BareChar(':', " " + u, slashes);
    IndentedChar(' ', u, depth);
    IndentedChar(':', " " + u, depth);
    assert ": " + u == [':'] + (" " + u);
  }

  /** Text without white space outside its literals is laid out by `Pretty`. */
  lemma {:induction false} PrettyIsLaidOut(s: string, depth: nat, slashes: bool)
    requires NoBlanks(s) && Clean(s, slashes)
    ensures LaidOut(Pretty(s, depth), s, depth, slashes)
    decreases |s|
  {
    hide NewLine, Clean, LiteralEnd, NoBlanks, LaidOut;
    if s == "" {
      LaidNothing(depth, slashes);
    } else {
      BareTail(s, slashes);
      var tail := s[1..];
      assert s == [s[0]] + tail;
      if s[0] == '\"' {
        PrettyIsLaidOut(s[LiteralEnd(s)..], depth, slashes);
        LaidLiteral(s, Pretty(s[LiteralEnd(s)..], depth), depth, slashes);
      } else if Opens(s[0]) && Closes(Peek(tail)) {
        BareTail(tail, slashes);
        assert tail[1..] == s[2..] && s == s[..2] + s[2..] && s[..2] == [s[0], tail[0]];
        PrettyIsLaidOut(s[2..], depth, slashes);
        LaidPair(s[0], tail[0], Pretty(s[2..], depth), s[2..], depth, slashes);
      } else if Opens(s[0]) || s[0] == ',' {
        var d := if Opens(s[0]) then depth + 1 else depth;
        PrettyIsLaidOut(tail, d, slashes);
        LaidBreak(s[0], Pretty(tail, d), tail, depth, slashes);
        assert "," == [','];
      } else if Closes(s[0]) {
        PrettyIsLaidOut(tail, Outer(depth), slashes);
        LaidClose(s[0], Pretty(tail, Outer(depth)), tail, depth, slashes);
      } else if s[0] == ':' {
        PrettyIsLaidOut(tail, depth, slashes);
        LaidColon(Pretty(tail, depth), tail, depth, slashes);
      } else {
        PrettyIsLaidOut(tail, depth, slashes);
        LaidChar(s[0], Pretty(tail, depth), tail, depth, slashes);
      }
    }
  }

  lemma LaidNothing(depth: nat, slashes: bool)
    ensures LaidOut("", "", depth, slashes)
  {
  }

  /** The exact layout of printed text. Compact text has no white space outside literals.
    Pretty text is compact text laid out: without that white space it is the compact text
    again, and its lines are indented. All of it is clean. */
  lemma PrintedLayout(lib: Numbers, v: Json, slashes: bool)
    requires WellFormed(lib, v)
    ensures var compact, pretty := Print(lib, v, 0, Style(false, slashes)), Print(lib, v, 0, Style(true, slashes));
            && NoBlanks(compact) && Clean(compact, slashes)
            && pretty == Pretty(compact, 0)
            && Bare(pretty) == compact && Clean(pretty, slashes) && Indented(pretty, 0)
  {
    hide Print, WellFormed, Clean, Indented, Bare, Lays, NoBlanks;
    var compact, pretty := Print(lib, v, 0, Style(false, slashes)), Print(lib, v, 0, Style(true, slashes));
    CompactExactly(lib, v, 0, slashes);
    LaysPrint(lib, v, 0, 0, slashes);
    LaysAt(compact, pretty, 0, "");
    assert compact + "" == compact && Pretty("", 0) == "";
    PrettyIsLaidOut(compact, 0, slashes);
  }

  // ----- the shortest literal -------------------------------------------------

  lemma {:induction false} EscapeConcat(a: string, b: string, slashes: bool)
    ensures JsonText.Escape(a + b, slashes) == JsonText.Escape(a, slashes) + JsonText.Escape(b, slashes)
  {
    if a == "" {
      assert a + b == b;
    } else {
      assert (a + b)[1..] == a[1..] + b;
      EscapeConcat(a[1..], b, slashes);
    }
  }

  lemma {:induction false} EscapeOctets(s: string)
    requires forall i :: 0 <= i < |s| ==> s[i] as int >= 0x80
    ensures |JsonText.Escape(s, false)| == |s|
  {
    if s != "" {
      EscapeOctets(s[1..]);
    }
  }

  lemma EscapeCodePoint(cp: int)
    requires Utf8.ScalarValue(cp)
    ensures |JsonText.Escape(Utf8.Encode(cp), false)| <= 6
  {
    if cp < 0x80 {
      assert Utf8.Encode(cp)[1..] == "";
    } else {
      EscapeOctets(Utf8.Encode(cp));
    }
  }

  lemma EscapePiece(p: JsonGrammar.Piece)
    requires JsonGrammar.ValidPiece(p)
    ensures |JsonText.Escape(JsonGrammar.PieceValue(p), false)| <= |JsonGrammar.PieceText(p)|
  {
    match p
    case Plain(c) => assert [c][1..] == "";
    case Short(c) => assert [JsonGrammar.SHORT[c]][1..] == "";
    case Unicode(_, unit) => EscapeCodePoint(unit);
    case Pair(_, high, _, low) => EscapeCodePoint(0x1_0000 + (high - 0xD800) * 0x400 + (low - 0xDC00));
  }

  /** No literal of the grammar that stands for a string is shorter than the printed one,
    when slashes are left alone. */
  lemma {:induction false} EscapeShortest(ps: seq<JsonGrammar.Piece>)
    requires JsonGrammar.ValidPieces(ps)
    ensures |JsonText.Escape(JsonGrammar.PiecesValue(ps), false)| <= |JsonGrammar.PiecesText(ps)|
  {
    hide JsonGrammar.PieceText, JsonGrammar.PieceValue, JsonGrammar.ValidPiece, JsonText.EscapeChar;
    if ps != [] {
      EscapePiece(ps[0]);
      EscapeShortest(ps[1..]);
      EscapeConcat(JsonGrammar.PieceValue(ps[0]), JsonGrammar.PiecesValue(ps[1..]), false);
    }
  }

  /** Escaping slashes costs one character each, and hexadecimal digits are in lower case. */
  lemma EscapeForm(c: char, slashes: bool)
    ensures |JsonText.EscapeChar(c, slashes)| == |JsonText.EscapeChar(c, false)| + if c == '/' && slashes then 1 else 0
    ensures c < ' ' ==> forall k :: 0 <= k < |JsonText.EscapeChar(c, slashes)| ==>
              !('A' <= JsonText.EscapeChar(c, slashes)[k] <= 'Z')
  {
  }
}
