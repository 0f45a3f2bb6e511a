/** The two-pass serializer of parson: one routine that measures when it is
  given no buffer and writes when it is given one. */
module JsonSerializer {
  import opened Wrappers
  import opened CString
  import opened Libc
  import opened JsonValue
  import opened JsonPrinter
  import JsonText

  // ----- what a buffer holds -----------------------------------------------

  /** `b` is `b0` with `text` written at `at`; the character behind the text may
    have changed too, nothing else has. */
  ghost predicate Placed(b: seq<char>, b0: seq<char>, at: nat, text: string) {
    && |b| == |b0| && at + |text| < |b|
    && b[..at] == b0[..at]
    && b[at..at + |text|] == text
    && b[at + |text| + 1..] == b0[at + |text| + 1..]
  }

  /** ... and the text is terminated. */
  ghost predicate Written(b: seq<char>, b0: seq<char>, at: nat, text: string) {
    Placed(b, b0, at, text) && b[at + |text|] == NUL
  }

  lemma PlacedNext(b0: seq<char>, b1: seq<char>, b2: seq<char>, at: nat, t1: string, t2: string)
    requires Placed(b1, b0, at, t1) && Placed(b2, b1, at + |t1|, t2)
    ensures Placed(b2, b0, at, t1 + t2)
  {
    var n1, n2 := at + |t1|, at + |t1| + |t2|;
    assert b2[..at] == b2[..n1][..at] == b1[..at];
    assert b2[at..n1] == b2[..n1][at..] == b1[..n1][at..] == t1;
    assert b2[at..n2] == b2[at..n1] + b2[n1..n2];
    assert b1[n2 + 1..] == b1[n1 + 1..][|t2|..];
    assert b0[n2 + 1..] == b0[n1 + 1..][|t2|..];
  }

  ghost function Contents(buf: array?<char>): seq<char>
    reads buf
  {
    if buf == null then [] else buf[..]
  }

  /** In the writing pass, the text has been written at `at`. */
  ghost predicate Emitted(buf: array?<char>, b0: seq<char>, at: nat, text: string)
    reads buf
  {
    buf != null ==> Written(buf[..], b0, at, text)
  }

  lemma EmittedNext(buf: array?<char>, b0: seq<char>, b1: seq<char>, at: nat, t1: string, t2: string)
    requires buf != null ==> Written(b1, b0, at, t1)
    requires Emitted(buf, b1, at + |t1|, t2)
    ensures Emitted(buf, b0, at, t1 + t2)
  {
    if buf != null {
      PlacedNext(b0, b1, buf[..], at, t1, t2);
    }
  }

  predicate Room(buf: array?<char>, at: nat, n: nat) {
    buf != null ==> at + n < buf.Length
  }

  /** The scratch buffer the measuring pass formats numbers into. */
  predicate Scratch(buf: array?<char>, num: array?<char>) {
    buf == null ==> num != null && num.Length == NUM_BUF_SIZE
  }

  function Target(buf: array?<char>, num: array?<char>): set<object> {
    if buf != null then {buf} else if num != null then {num} else {}
  }

  // ----- the pieces --------------------------------------------------------

  /** `sprintf(buf + at, "%s", text)` */
  method Sprintf(buf: array<char>, at: nat, text: string) returns (written: nat)
    requires at + |text| < buf.Length
    modifies buf
    ensures written == |text|
    ensures Written(buf[..], old(buf[..]), at, text)
  {
    var i := 0;
    while i < |text|
      invariant 0 <= i <= |text|
      invariant buf[..at] == old(buf[..at])
      invariant buf[at..at + i] == text[..i]
      invariant buf[at + i..] == old(buf[at + i..])
    {
      buf[at + i] := text[i];
      i := i + 1;
    }
    buf[at + |text|] := NUL;
    written := |text|;
  }

  /** `append_string` */
  method AppendString(buf: array?<char>, at: nat, text: string) returns (written: nat)
    requires Room(buf, at, |text|)
    modifies Target(buf, null)
    ensures written == |text|
    ensures Emitted(buf, old(Contents(buf)), at, text)
  {
    if buf == null {
      return |text|;
    }
    written := Sprintf(buf, at, text);
  }

  /** `append_indent`, called where a text ends */
  method AppendIndent(buf: array?<char>, at: nat, level: nat) returns (written: nat)
    requires Room(buf, at, 4 * level)
    requires buf != null ==> buf[at] == NUL
    modifies Target(buf, null)
    ensures written == 4 * level
    ensures Emitted(buf, old(Contents(buf)), at, Indent(level))
  {
    hide Emitted, Indent;
    ghost var b0 := Contents(buf);
    StartEmpty(buf, at);
    IndentNone();
    var i := 0;
    written := 0;
    while i < level
      invariant 0 <= i <= level
      invariant written == 4 * i
      invariant Emitted(buf, b0, at, Indent(i))
    {
      IndentMore(i);
      written := Append(buf, at, written, "    ", b0, Indent(i));
      i := i + 1;
    }
  }

  lemma StartEmpty(buf: array?<char>, at: nat)
    requires buf != null ==> at < buf.Length && buf[at] == NUL
    ensures Emitted(buf, Contents(buf), at, "")
  {
  }

  lemma IndentNone()
    ensures Indent(0) == ""
  {
  }

  lemma {:induction false} IndentMore(level: nat)
    ensures Indent(level + 1) == Indent(level) + "    "
  {
    if level > 0 {
      IndentMore(level - 1);
    }
  }

  /** `done` is the literal up to the escape of character `i`. */
  ghost predicate QuotedUpTo(s: string, slashes: bool, i: nat, done: string) {
    i <= |s| && done + JsonText.Escape(s[i..], slashes) + "\"" == JsonText.Quote(s, slashes)
  }

  lemma QuotedStart(s: string, slashes: bool)
    ensures QuotedUpTo(s, slashes, 0, "\"")
  {
    assert s[0..] == s;
  }

  lemma QuotedStep(s: string, slashes: bool, i: nat, done: string)
    requires i < |s| && QuotedUpTo(s, slashes, i, done)
    ensures QuotedUpTo(s, slashes, i + 1, done + JsonText.EscapeChar(s[i], slashes))
    ensures |done| + |JsonText.EscapeChar(s[i], slashes)| < |JsonText.Quote(s, slashes)|
  {
    hide JsonText.EscapeChar, JsonText.Quote;
    assert s[i..][0] == s[i] && s[i..][1..] == s[i + 1..];
    var e, tail := JsonText.EscapeChar(s[i], slashes), JsonText.Escape(s[i + 1..], slashes);
    assert JsonText.Escape(s[i..], slashes) == e + tail;
    assert done + (e + tail) + "\"" == done + e + tail + "\"";
  }

  lemma QuotedEnd(s: string, slashes: bool, done: string)
    requires QuotedUpTo(s, slashes, |s|, done)
    ensures done + "\"" == JsonText.Quote(s, slashes)
  {
    hide JsonText.Quote;
    assert done + "" == done;
  }

  /** `json_serialize_string` */
  method SerializeString(buf: array?<char>, at: nat, s: string, slashes: bool) returns (written: nat)
    requires Room(buf, at, |JsonText.Quote(s, slashes)|)
    modifies Target(buf, null)
    ensures written == |JsonText.Quote(s, slashes)|
    ensures Emitted(buf, old(Contents(buf)), at, JsonText.Quote(s, slashes))
  {
    hide JsonText.EscapeChar, JsonText.Quote, Placed, QuotedUpTo;
    ghost var b0 := Contents(buf);
    ghost var done := "\"";
    QuotedStart(s, slashes);
    QuotedRoom(s, slashes);
    written := AppendString(buf, at, "\"");
    var i := 0;
    while i < |s|
      invariant 0 <= i <= |s|
      invariant QuotedUpTo(s, slashes, i, done)
      invariant written == |done|
      invariant buf != null ==> Placed(buf[..], b0, at, done)
    {
      ghost var b1 := Contents(buf);
      ghost var e := JsonText.EscapeChar(s[i], slashes);
      QuotedStep(s, slashes, i, done);
      var n := SerializeChar(buf, at + written, s[i], slashes);
      if buf != null {
        PlacedNext(b0, b1, buf[..], at, done, e);
      }
      done := done + e;
      written := written + n;
      i := i + 1;
    }
    ghost var b1 := Contents(buf);
    QuotedEnd(s, slashes, done);
    var n := AppendString(buf, at + written, "\"");
    if buf != null {
      PlacedNext(b0, b1, buf[..], at, done, "\"");
    }
    written := written + n;
  }

  lemma QuotedRoom(s: string, slashes: bool)
    ensures |JsonText.Quote(s, slashes)| >= 2
  {
  }

  /** The `switch` of `json_serialize_string`. */
  method SerializeChar(buf: array?<char>, at: nat, c: char, slashes: bool) returns (written: nat)
    requires Room(buf, at, |JsonText.EscapeChar(c, slashes)|)
    modifies Target(buf, null)
    ensures written == |JsonText.EscapeChar(c, slashes)|
    ensures buf != null ==> Placed(buf[..], old(buf[..]), at, JsonText.EscapeChar(c, slashes))
  {
    if JsonText.EscapeChar(c, slashes) != [c] || c == '/' {
      written := AppendString(buf, at, JsonText.EscapeChar(c, slashes));
    } else {
      if buf != null {
        buf[at] := c;
      }
      written := 1;
    }
  }

  // ----- trees -------------------------------------------------------------

  /** The macro APPEND_STRING, with the text written so far. */
  method Append(buf: array?<char>, at: nat, written: nat, text: string, ghost b0: seq<char>, ghost done: string)
    returns (total: nat)
    requires written == |done| && Room(buf, at + written, |text|)
    requires Emitted(buf, b0, at, done)
    modifies Target(buf, null)
    ensures total == |done + text|
    ensures Emitted(buf, b0, at, done + text)
  {
    hide Written;
    ghost var b1 := Contents(buf);
    var n := AppendString(buf, at + written, text);
    EmittedNext(buf, b0, b1, at, done, text);
    total := written + n;
  }

  /** The macro APPEND_INDENT, when pretty-printing. */
  method AppendPad(buf: array?<char>, at: nat, written: nat, st: Style, level: nat, ghost b0: seq<char>, ghost done: string)
    returns (total: nat)
    requires written == |done| && Room(buf, at + written, |Pad(st, level)|)
    requires Emitted(buf, b0, at, done)
    modifies Target(buf, null)
    ensures total == |done + Pad(st, level)|
    ensures Emitted(buf, b0, at, done + Pad(st, level))
  {
    total := written;
    assert done + "" == done;
    if st.pretty {
      ghost var b1 := Contents(buf);
      var n := AppendIndent(buf, at + written, level);
      EmittedNext(buf, b0, b1, at, done, Indent(level));
      total := written + n;
    }
  }

  /** An opening bracket and the line break behind it. */
  method AppendOpening(buf: array?<char>, at: nat, bracket: string, st: Style) returns (total: nat)
    requires Room(buf, at, |bracket + Break(st)|)
    modifies Target(buf, null)
    ensures total == |bracket + Break(st)|
    ensures Emitted(buf, old(Contents(buf)), at, bracket + Break(st))
  {
    hide Emitted;
    ghost var b0 := Contents(buf);
    total := AppendString(buf, at, bracket);
    assert bracket + "" == bracket;
    if st.pretty {
      total := Append(buf, at, total, "\n", b0, bracket);
    }
  }

  /** The comma and the line break behind element `i` of `n`. */
  method AppendSeparator(buf: array?<char>, at: nat, written: nat, i: nat, n: nat, st: Style,
                         ghost b0: seq<char>, ghost done: string)
    returns (total: nat)
    requires written == |done| && Room(buf, at + written, |Separator(i, n, st)|)
    requires Emitted(buf, b0, at, done)
    modifies Target(buf, null)
    ensures total == |done + Separator(i, n, st)|
    ensures Emitted(buf, b0, at, done + Separator(i, n, st))
  {
    hide Emitted;
    total := written;
    ghost var sofar := done;
    if i + 1 < n {
      total := Append(buf, at, total, ",", b0, sofar);
      sofar := sofar + ",";
    }
    if st.pretty {
      total := Append(buf, at, total, "\n", b0, sofar);
      sofar := sofar + "\n";
    }
    assert sofar == done + Separator(i, n, st);
  }

  /** `json_serialize_to_buffer_r`: with a buffer it writes the printed text at
    `at`, without one it only measures; either way it returns the length. */
  method SerializeR(lib: Numbers, v: Json, buf: array?<char>, at: nat, level: nat, st: Style, num: array?<char>)
    returns (written: nat)
    requires WellFormed(lib, v)
    requires Room(buf, at, |Print(lib, v, level, st)|) && Scratch(buf, num)
    modifies Target(buf, num)
    ensures written == |Print(lib, v, level, st)|
    ensures Emitted(buf, old(Contents(buf)), at, Print(lib, v, level, st))
    decreases v, 1
  {
    hide Emitted, JsonText.Quote;
    match v
    case Array(items) => written := SerializeArray(lib, items, buf, at, level, st, num);
    case Object(ms) => written := SerializeObject(lib, ms, buf, at, level, st, num);
    case String(s) => written := SerializeString(buf, at, s, st.slashes);
    case Boolean(b) => written := AppendString(buf, at, if b then "true" else "false");
    case Null => written := AppendString(buf, at, "null");
    case Number(n) => written := SerializeNumber(lib, n, buf, at, num);
  }

  /** The JSONNumber case: without a buffer `sprintf` fills the scratch buffer. */
  method SerializeNumber(lib: Numbers, n: real, buf: array?<char>, at: nat, num: array?<char>) returns (written: nat)
    requires lib.isDouble(n)
    requires Room(buf, at, |lib.format(n)|) && Scratch(buf, num)
    modifies Target(buf, num)
    ensures written == |lib.format(n)|
    ensures Emitted(buf, old(Contents(buf)), at, lib.format(n))
  {
    assert NumberText(lib.format(n));
    if buf != null {
      written := Sprintf(buf, at, lib.format(n));
    } else {
      written := Sprintf(num, 0, lib.format(n));
    }
  }

  /** `done` is the printed array up to element `i`. */
  ghost predicate ItemsUpTo(lib: Numbers, items: seq<Json>, i: nat, level: nat, st: Style, done: string) {
    && i <= |items|
    && done + PrintItems(lib, items, i, level + 1, st) + (Pad(st, level) + "]") == Print(lib, Array(items), level, st)
  }

  lemma ItemsFirst(lib: Numbers, items: seq<Json>, level: nat, st: Style)
    requires items != []
    ensures ItemsUpTo(lib, items, 0, level, st, "[" + Break(st))
    ensures |"[" + Break(st)| < |Print(lib, Array(items), level, st)|
  {
    hide PrintItems, Pad, Break;
    var done, body, pad := "[" + Break(st), PrintItems(lib, items, 0, level + 1, st), Pad(st, level);
    assert done + body + pad + "]" == done + body + (pad + "]");
  }

  /** Element `i` with its padding and separator. */
  ghost function ItemText(lib: Numbers, items: seq<Json>, i: nat, level: nat, st: Style): string
    requires i < |items|
  {
    Pad(st, level + 1) + Print(lib, items[i], level + 1, st) + Separator(i, |items|, st)
  }

  lemma ItemsNext(lib: Numbers, items: seq<Json>, i: nat, level: nat, st: Style, done: string)
    requires i < |items| && ItemsUpTo(lib, items, i, level, st, done)
    ensures ItemsUpTo(lib, items, i + 1, level, st, done + ItemText(lib, items, i, level, st))
    ensures |done| + |ItemText(lib, items, i, level, st)| < |Print(lib, Array(items), level, st)|
  {
    hide Print, Pad, Separator;
    var t, tail, close := ItemText(lib, items, i, level, st), PrintItems(lib, items, i + 1, level + 1, st), Pad(st, level) + "]";
    assert PrintItems(lib, items, i, level + 1, st) == t + tail;
    assert done + (t + tail) + close == done + t + tail + close;
  }

  lemma ItemsLast(lib: Numbers, items: seq<Json>, level: nat, st: Style, done: string)
    requires ItemsUpTo(lib, items, |items|, level, st, done)
    ensures done + Pad(st, level) + "]" == Print(lib, Array(items), level, st)
  {
    hide Print, Pad;
    assert done + "" == done;
    assert done + Pad(st, level) + "]" == done + (Pad(st, level) + "]");
  }

  /** A value inside an array or an object, behind what was written before it. */
  method SerializeNested(lib: Numbers, v: Json, buf: array?<char>, at: nat, written: nat, level: nat, st: Style,
                         num: array?<char>, ghost b0: seq<char>, ghost done: string)
    returns (total: nat)
    requires WellFormed(lib, v)
    requires written == |done| && Emitted(buf, b0, at, done) && Scratch(buf, num)
    requires Room(buf, at, |done| + |Print(lib, v, level, st)|)
    modifies Target(buf, num)
    ensures total == |done + Print(lib, v, level, st)|
    ensures Emitted(buf, b0, at, done + Print(lib, v, level, st))
    decreases v, 2
  {
    hide Print, Written, WellFormed;
    ghost var b1 := Contents(buf);
    var n := SerializeR(lib, v, buf, at + written, level, st, num);
    EmittedNext(buf, b0, b1, at, done, Print(lib, v, level, st));
    total := written + n;
  }

  /** One turn of the loop of the JSONArray case. */
  method SerializeItem(lib: Numbers, items: seq<Json>, i: nat, buf: array?<char>, at: nat, written: nat, level: nat,
                       st: Style, num: array?<char>, ghost b0: seq<char>, ghost done: string)
    returns (total: nat)
    requires i < |items| && WellFormed(lib, items[i])
    requires written == |done| && Emitted(buf, b0, at, done) && Scratch(buf, num)
    requires Room(buf, at, |done| + |ItemText(lib, items, i, level, st)|)
    modifies Target(buf, num)
    ensures total == |done + ItemText(lib, items, i, level, st)|
    ensures Emitted(buf, b0, at, done + ItemText(lib, items, i, level, st))
    decreases items, 0
  {
    hide Print, Written, WellFormed, Pad, Separator;
    ghost var pad, p, sep := Pad(st, level + 1), Print(lib, items[i], level + 1, st), Separator(i, |items|, st);
    total := AppendPad(buf, at, written, st, level + 1, b0, done);
    total := SerializeNested(lib, items[i], buf, at, total, level + 1, st, num, b0, done + pad);
    total := AppendSeparator(buf, at, total, i, |items|, st, b0, done + pad + p);
    assert done + pad + p + sep == done + (pad + p + sep);
  }

  /** The JSONArray case. */
  method SerializeArray(lib: Numbers, items: seq<Json>, buf: array?<char>, at: nat, level: nat, st: Style, num: array?<char>)
    returns (written: nat)
    requires forall k :: 0 <= k < |items| ==> WellFormed(lib, items[k])
    requires Room(buf, at, |Print(lib, Array(items), level, st)|) && Scratch(buf, num)
    modifies Target(buf, num)
    ensures written == |Print(lib, Array(items), level, st)|
    ensures Emitted(buf, old(Contents(buf)), at, Print(lib, Array(items), level, st))
    decreases items, 1
  {
    if items == [] {
      written := AppendString(buf, at, "[]");
      return;
    }
    hide Print, PrintItems, Written, WellFormed, Pad, ItemText, ItemsUpTo;
    ghost var b0 := Contents(buf);
    ItemsFirst(lib, items, level, st);
    written := AppendOpening(buf, at, "[", st);
    ghost var done := "[" + Break(st);
    var i := 0;
    while i < |items|
      invariant 0 <= i <= |items|
      invariant ItemsUpTo(lib, items, i, level, st, done)
      invariant written == |done|
      invariant Emitted(buf, b0, at, done)
    {
      ItemsNext(lib, items, i, level, st, done);
      written := SerializeItem(lib, items, i, buf, at, written, level, st, num, b0, done);
      done := done + ItemText(lib, items, i, level, st);
      i := i + 1;
    }
    ItemsLast(lib, items, level, st, done);
    written := AppendPad(buf, at, written, st, level, b0, done);
    written := Append(buf, at, written, "]", b0, done + Pad(st, level));
  }

  /** `done` is the printed object up to member `i`. */
  ghost predicate MembersUpTo(lib: Numbers, ms: seq<Member>, i: nat, level: nat, st: Style, done: string) {
    && i <= |ms|
    && done + PrintMembers(lib, ms, i, level + 1, st) + (Pad(st, level) + "}") == Print(lib, Object(ms), level, st)
  }

  lemma MembersFirst(lib: Numbers, ms: seq<Member>, level: nat, st: Style)
    requires ms != []
    ensures MembersUpTo(lib, ms, 0, level, st, "{" + Break(st))
    ensures |"{" + Break(st)| < |Print(lib, Object(ms), level, st)|
  {
    hide PrintMembers, Pad, Break;
    var done, body, pad := "{" + Break(st), PrintMembers(lib, ms, 0, level + 1, st), Pad(st, level);
    assert done + body + pad + "}" == done + body + (pad + "}");
  }

  /** Member `i` with its padding and separator. */
  ghost function MemberText(lib: Numbers, ms: seq<Member>, i: nat, level: nat, st: Style): string
    requires i < |ms|
  {
    Pad(st, level + 1) + JsonText.Quote(ms[i].name, st.slashes) + Colon(st)
    + Print(lib, ms[IndexOf(ms, ms[i].name)].value, level + 1, st) + Separator(i, |ms|, st)
  }

  lemma MembersNext(lib: Numbers, ms: seq<Member>, i: nat, level: nat, st: Style, done: string)
    requires i < |ms| && MembersUpTo(lib, ms, i, level, st, done)
    ensures MembersUpTo(lib, ms, i + 1, level, st, done + MemberText(lib, ms, i, level, st))
    ensures |done| + |MemberText(lib, ms, i, level, st)| < |Print(lib, Object(ms), level, st)|
  {
    hide Print, Pad, Separator, Colon, JsonText.Quote;
    var t, tail, close := MemberText(lib, ms, i, level, st), PrintMembers(lib, ms, i + 1, level + 1, st), Pad(st, level) + "}";
    assert PrintMembers(lib, ms, i, level + 1, st) == t + tail;
    assert done + (t + tail) + close == done + t + tail + close;
  }

  lemma MembersLast(lib: Numbers, ms: seq<Member>, level: nat, st: Style, done: string)
    requires MembersUpTo(lib, ms, |ms|, level, st, done)
    ensures done + Pad(st, level) + "}" == Print(lib, Object(ms), level, st)
  {
    hide Print, Pad;
    assert done + "" == done;
    assert done + Pad(st, level) + "}" == done + (Pad(st, level) + "}");
  }

  lemma Group5(done: string, a: string, b: string, c: string, d: string, e: string)
    ensures done + a + b + c + d + e == done + (a + b + c + d + e)
  {
  }

  /** The key of a member and the colon. */
  method SerializeKey(buf: array?<char>, at: nat, written: nat, name: string, st: Style,
                      ghost b0: seq<char>, ghost done: string)
    returns (total: nat)
    requires written == |done| && Emitted(buf, b0, at, done)
    requires Room(buf, at, |done| + |JsonText.Quote(name, st.slashes)| + |Colon(st)|)
    modifies Target(buf, null)
    ensures total == |done + JsonText.Quote(name, st.slashes) + Colon(st)|
    ensures Emitted(buf, b0, at, done + JsonText.Quote(name, st.slashes) + Colon(st))
  {
    hide Written, Colon, JsonText.Quote;
    ghost var b1 := Contents(buf);
    var n := SerializeString(buf, at + written, name, st.slashes);
    EmittedNext(buf, b0, b1, at, done, JsonText.Quote(name, st.slashes));
    total := Append(buf, at, written + n, Colon(st), b0, done + JsonText.Quote(name, st.slashes));
  }

  /** One turn of the loop of the JSONObject case. */
  method SerializeMember(lib: Numbers, ms: seq<Member>, i: nat, buf: array?<char>, at: nat, written: nat, level: nat,
                         st: Style, num: array?<char>, ghost b0: seq<char>, ghost done: string)
    returns (total: nat)
    requires i < |ms| && forall k :: 0 <= k < |ms| ==> WellFormed(lib, ms[k].value)
    requires written == |done| && Emitted(buf, b0, at, done) && Scratch(buf, num)
    requires Room(buf, at, |done| + |MemberText(lib, ms, i, level, st)|)
    modifies Target(buf, num)
    ensures total == |done + MemberText(lib, ms, i, level, st)|
    ensures Emitted(buf, b0, at, done + MemberText(lib, ms, i, level, st))
    decreases ms, 0
  {
    hide Print, Written, WellFormed, Pad, Separator, Colon, JsonText.Quote, IndexOf;
    var k := IndexOf(ms, ms[i].name);
    ghost var pad, q, c := Pad(st, level + 1), JsonText.Quote(ms[i].name, st.slashes), Colon(st);
    ghost var p, sep := Print(lib, ms[k].value, level + 1, st), Separator(i, |ms|, st);
    total := AppendPad(buf, at, written, st, level + 1, b0, done);
    total := SerializeKey(buf, at, total, ms[i].name, st, b0, done + pad);
    total := SerializeNested(lib, ms[k].value, buf, at, total, level + 1, st, num, b0, done + pad + q + c);
    total := AppendSeparator(buf, at, total, i, |ms|, st, b0, done + pad + q + c + p);
    Group5(done, pad, q, c, p, sep);
  }

  /** The JSONObject case; each value is looked up by its name. */
  method SerializeObject(lib: Numbers, ms: seq<Member>, buf: array?<char>, at: nat, level: nat, st: Style, num: array?<char>)
    returns (written: nat)
    requires forall k :: 0 <= k < |ms| ==> WellFormed(lib, ms[k].value)
    requires Room(buf, at, |Print(lib, Object(ms), level, st)|) && Scratch(buf, num)
    modifies Target(buf, num)
    ensures written == |Print(lib, Object(ms), level, st)|
    ensures Emitted(buf, old(Contents(buf)), at, Print(lib, Object(ms), level, st))
    decreases ms, 1
  {
    if ms == [] {
      written := AppendString(buf, at, "{}");
      return;
    }
    hide Print, PrintMembers, Written, WellFormed, Pad, MemberText, MembersUpTo;
    ghost var b0 := Contents(buf);
    MembersFirst(lib, ms, level, st);
    written := AppendOpening(buf, at, "{", st);
    ghost var done := "{" + Break(st);
    var i := 0;
    while i < |ms|
      invariant 0 <= i <= |ms|
      invariant MembersUpTo(lib, ms, i, level, st, done)
      invariant written == |done|
      invariant Emitted(buf, b0, at, done)
    {
      MembersNext(lib, ms, i, level, st, done);
      written := SerializeMember(lib, ms, i, buf, at, written, level, st, num, b0, done);
      done := done + MemberText(lib, ms, i, level, st);
      i := i + 1;
    }
    MembersLast(lib, ms, level, st, done);
    written := AppendPad(buf, at, written, st, level, b0, done);
    written := Append(buf, at, written, "}", b0, done + Pad(st, level));
  }

  // ----- entry points ------------------------------------------------------

  /** `json_serialization_size` and `json_serialization_size_pretty` */
  method SerializationSize(lib: Numbers, v: Json, st: Style) returns (size: nat)
    requires WellFormed(lib, v)
    ensures size == |Print(lib, v, 0, st)| + 1
  {
    var num := new char[NUM_BUF_SIZE];
    var n := SerializeR(lib, v, null, 0, 0, st, num);
    size := n + 1;
  }

  /** `json_serialize_to_buffer` and `json_serialize_to_buffer_pretty`: success
    exactly when the measured size fits, and then the buffer holds the printed
    text, terminated, and is untouched behind it. */
  method SerializeToBuffer(lib: Numbers, v: Json, buf: array<char>, size: nat, st: Style) returns (ok: bool)
    requires WellFormed(lib, v) && size <= buf.Length
    modifies buf
    ensures ok <==> |Print(lib, v, 0, st)| + 1 <= size
    ensures ok ==> Written(buf[..], old(buf[..]), 0, Print(lib, v, 0, st))
    ensures !ok ==> buf[..] == old(buf[..])
  {
    hide Print, Written;
    var needed := SerializationSize(lib, v, st);
    if size < needed {
      return false;
    }
    var n := SerializeR(lib, v, buf, 0, 0, st, null);
    return true;
  }

  /** `json_serialize_to_string` and `json_serialize_to_string_pretty`: the
    buffer of the measured size always suffices, and read as a C string it is
    the printed text. */
  method SerializeToString(lib: Numbers, v: Json, st: Style) returns (buf: array<char>)
    requires WellFormed(lib, v)
    ensures fresh(buf) && buf[..] == Print(lib, v, 0, st) + [NUL]
    ensures CStr(buf[..]) == Print(lib, v, 0, st)
  {
    hide Print;
    var size := SerializationSize(lib, v, st);
    buf := new char[size];
    var ok := SerializeToBuffer(lib, v, buf, size, st);
    ghost var text := Print(lib, v, 0, st);
    assert buf[..] == buf[0..|text|] + [buf[|text|]] + buf[|text| + 1..];
    PrintNulFree(lib, v, 0, st);
    CStrExact(text);
  }

  lemma {:induction false} CStrExact(text: string)
    requires NulFree(text)
    ensures CStr(text + [NUL]) == text
  {
    if text != [] {
      assert (text + [NUL])[1..] == text[1..] + [NUL];
      CStrExact(text[1..]);
    }
  }

  // ----- printed texts are C strings ---------------------------------------

  lemma {:induction false} EscapeNulFree(s: string, slashes: bool)
    ensures NulFree(JsonText.Escape(s, slashes))
  {
    if s != [] {
      hide JsonText.EscapeChar;
      EscapeCharNulFree(s[0], slashes);
      EscapeNulFree(s[1..], slashes);
    }
  }

  lemma EscapeCharNulFree(c: char, slashes: bool)
    ensures NulFree(JsonText.EscapeChar(c, slashes))
  {
  }

  lemma PadNulFree(st: Style, level: nat)
    ensures NulFree(Pad(st, level)) && NulFree(Break(st))
  {
    forall i | 0 <= i < |Pad(st, level)|
      ensures Pad(st, level)[i] != NUL
    {
      assert IsSpace(Pad(st, level)[i]);
    }
  }

  /** No printed text contains a NUL, even where a string does. */
  lemma {:induction false} PrintNulFree(lib: Numbers, v: Json, level: nat, st: Style)
    requires WellFormed(lib, v)
    ensures NulFree(Print(lib, v, level, st))
    decreases v, 0
  {
    hide Pad, Break, JsonText.Quote, NulFree, PrintItems, PrintMembers, Lawful;
    match v
    case String(s) => QuoteNulFree(s, st);
    case Array(items) =>
      ItemsNulFree(lib, items, 0, level + 1, st);
      BracketsNulFree("[", PrintItems(lib, items, 0, level + 1, st), "]", level, st);
    case Object(ms) =>
      MembersNulFree(lib, ms, 0, level + 1, st);
      BracketsNulFree("{", PrintMembers(lib, ms, 0, level + 1, st), "}", level, st);
    case _ => ScalarNulFree(lib, v, level, st);
  }

  lemma {:induction false} ItemsNulFree(lib: Numbers, items: seq<Json>, i: nat, level: nat, st: Style)
    requires i <= |items| && forall k :: 0 <= k < |items| ==> WellFormed(lib, items[k])
    ensures NulFree(PrintItems(lib, items, i, level, st))
    decreases items, |items| - i
  {
    hide Pad, Print, Separator, WellFormed, NulFree;
    ConcatNulFree("", "");
    if i < |items| {
      SeparatorNulFree(i, |items|, st);
      ConcatNulFree(Pad(st, level), Print(lib, items[i], level, st));
      ConcatNulFree(Pad(st, level) + Print(lib, items[i], level, st), Separator(i, |items|, st));
      ConcatNulFree(Pad(st, level) + Print(lib, items[i], level, st) + Separator(i, |items|, st),
                    PrintItems(lib, items, i + 1, level, st));
      PadNulFree(st, level);
      PrintNulFree(lib, items[i], level, st);
      ItemsNulFree(lib, items, i + 1, level, st);
    }
  }

  lemma {:induction false} MembersNulFree(lib: Numbers, ms: seq<Member>, i: nat, level: nat, st: Style)
    requires i <= |ms| && forall k :: 0 <= k < |ms| ==> WellFormed(lib, ms[k].value)
    ensures NulFree(PrintMembers(lib, ms, i, level, st))
    decreases ms, |ms| - i
  {
    hide Pad, Print, Separator, Colon, JsonText.Quote, WellFormed, NulFree;
    ConcatNulFree("", "");
    if i < |ms| {
      var k := IndexOf(ms, ms[i].name);
      var a, q, c := Pad(st, level), JsonText.Quote(ms[i].name, st.slashes), Colon(st);
      var p, e := Print(lib, ms[k].value, level, st), Separator(i, |ms|, st);
      PadNulFree(st, level);
      QuoteNulFree(ms[i].name, st);
      SeparatorNulFree(i, |ms|, st);
      PrintNulFree(lib, ms[k].value, level, st);
      MembersNulFree(lib, ms, i + 1, level, st);
      ConcatNulFree(a, q);
      ConcatNulFree(a + q, c);
      ConcatNulFree(a + q + c, p);
      ConcatNulFree(a + q + c + p, e);
      ConcatNulFree(a + q + c + p + e, PrintMembers(lib, ms, i + 1, level, st));
    }
  }

  lemma ScalarNulFree(lib: Numbers, v: Json, level: nat, st: Style)
    requires WellFormed(lib, v) && (v.Null? || v.Boolean? || v.Number?)
    ensures NulFree(Print(lib, v, level, st))
  {
    if v.Number? {
      assert NumberText(lib.format(v.n));
    }
  }

  lemma BracketsNulFree(open: string, body: string, close: string, level: nat, st: Style)
    requires NulFree(body) && ((open == "[" && close == "]") || (open == "{" && close == "}"))
    ensures NulFree(open + Break(st) + body + Pad(st, level) + close) && NulFree("[]") && NulFree("{}")
  {
    hide Break, Pad;
    PadNulFree(st, level);
  }

  lemma ConcatNulFree(a: string, b: string)
    ensures NulFree("") && (NulFree(a) && NulFree(b) ==> NulFree(a + b))
  {
  }

  lemma SeparatorNulFree(i: nat, n: nat, st: Style)
    ensures NulFree(Separator(i, n, st))
  {
  }

  lemma QuoteNulFree(s: string, st: Style)
    ensures NulFree(JsonText.Quote(s, st.slashes)) && NulFree(Colon(st))
  {
    EscapeNulFree(s, st.slashes);
  }
}
