/** Parsing undoes printing, and the parser only builds trees that the printer
  round-trips. */
module JsonRoundTrip {
  import opened Wrappers
  import opened CString
  import opened Libc
  import opened JsonValue
  import opened JsonPrinter
  import opened JsonParser
  import opened JsonGrammar
  import opened JsonLiterals
  import opened JsonAcceptance
  import JsonText

  // ----- the first character of a printed value ----------------------------

  lemma PrintStarts(lib: Numbers, v: Json, level: nat, st: Style)
    requires WellFormed(lib, v)
    ensures Print(lib, v, level, st) != [] && StartsValue(Print(lib, v, level, st)[0])
  {
    hide PrintItems, PrintMembers, JsonText.Escape;
  }

  // ----- the document a value is printed as ----------------------------------

  /** The piece that a character is written as. */
  function PieceFor(c: char, slashes: bool): Piece {
    if c == '\"' || c == '\\' || (c == '/' && slashes) then Short(c)
    else if c == BACKSPACE then Short('b')
    else if c == FORMFEED then Short('f')
    else if c == NEWLINE then Short('n')
    else if c == RETURN then Short('r')
    else if c == TAB then Short('t')
    else if c < ' ' then Unicode(JsonText.HexText(c as int), c as int)
    else Plain(c)
  }

  function PiecesFor(s: string, slashes: bool): seq<Piece> {
    if s == "" then [] else [PieceFor(s[0], slashes)] + PiecesFor(s[1..], slashes)
  }

  lemma PieceForChar(c: char, slashes: bool)
    ensures var p := PieceFor(c, slashes);
            ValidPiece(p) && PieceText(p) == JsonText.EscapeChar(c, slashes) && PieceValue(p) == [c]
  {
    hide JsonText.HexText, JsonText.HexDigit, Denotes;
    if PieceFor(c, slashes).Unicode? {
      HexOfControl(c as int);
    }
  }

  lemma HexOfControl(n: nat)
    requires n < 0x20
    ensures Denotes(JsonText.HexText(n), n)
    ensures JsonText.HexText(n) == "00" + [JsonText.HexDigit(n / 16), JsonText.HexDigit(n % 16)]
  {
    hide IsHexDigit;
    assert n / 4096 == 0 && n / 256 % 16 == 0 && n / 16 % 16 == n / 16;
    HexDigitOf(0);
    HexDigitOf(n / 16);
    HexDigitOf(n % 16);
  }

  lemma HexDigitOf(d: nat)
    requires d < 16
    ensures IsHexDigit(JsonText.HexDigit(d), d)
  {
    HexDigitExactly(JsonText.HexDigit(d), d);
    JsonText.HexValueOfDigit(d);
  }

  lemma {:induction false} PiecesForText(s: string, slashes: bool)
    ensures var ps := PiecesFor(s, slashes);
            ValidPieces(ps) && PiecesText(ps) == JsonText.Escape(s, slashes) && PiecesValue(ps) == s
  {
    hide PieceFor, JsonText.EscapeChar, PieceText, PieceValue, ValidPiece;
    if s != "" {
      PieceForChar(s[0], slashes);
      PiecesForText(s[1..], slashes);
      assert PiecesFor(s, slashes)[1..] == PiecesFor(s[1..], slashes);
      assert [s[0]] + s[1..] == s;
    }
  }

  /** Blanks stand in front of every element, and behind the last. */
  function Laid(lib: Numbers, v: Json, level: nat, st: Style): Doc
    decreases v
  {
    match v
    case Null => NullDoc
    case Boolean(b) => BooleanDoc(b)
    case Number(n) => NumberDoc(lib.format(n), n)
    case String(s) => StringDoc(PiecesFor(s, st.slashes))
    case Array(items) => ArrayDoc("", LaidItems(lib, items, 0, level, st))
    case Object(ms) => ObjectDoc("", LaidMembers(lib, ms, 0, level, st))
  }

  function Lead(level: nat, st: Style): string {
    Break(st) + Pad(st, level + 1)
  }

  function Tail(last: bool, level: nat, st: Style): string {
    if last then Break(st) + Pad(st, level) else ""
  }

  function LaidItems(lib: Numbers, items: seq<Json>, i: nat, level: nat, st: Style): (es: seq<Element>)
    requires i <= |items|
    ensures |es| == |items| - i
    decreases items, |items| - i
  {
    if i == |items| then []
    else
      [Element(Lead(level, st), Laid(lib, items[i], level + 1, st), Tail(i + 1 == |items|, level, st))]
      + LaidItems(lib, items, i + 1, level, st)
  }

  function LaidMembers(lib: Numbers, ms: seq<Member>, i: nat, level: nat, st: Style): (es: seq<Entry>)
    requires i <= |ms|
    ensures |es| == |ms| - i
    decreases ms, |ms| - i
  {
    if i == |ms| then []
    else
      [Entry(Lead(level, st), PiecesFor(ms[i].name, st.slashes), "", if st.pretty then " " else "",
             Laid(lib, ms[i].value, level + 1, st), Tail(i + 1 == |ms|, level, st))]
      + LaidMembers(lib, ms, i + 1, level, st)
  }

  /** What is printed is the text of that document, which is valid and has the value
    printed. */
  lemma {:induction false} LaidDoc(lib: Numbers, v: Json, level: nat, st: Style)
    requires WellFormed(lib, v)
    ensures Valid(lib, Laid(lib, v, level, st)) && Value(lib, Laid(lib, v, level, st)) == v
    ensures Text(Laid(lib, v, level, st)) == Print(lib, v, level, st)
    decreases v, 1, 0
  {
    hide PiecesFor, Lawful;
    match v
    case String(s) => PiecesForText(s, st.slashes);
    case Number(n) => PrintedNumeral(lib, n);
    case Array(items) => LaidArray(lib, items, level, st);
    case Object(ms) => LaidObject(lib, ms, level, st);
    case _ =>
  }

  lemma LaidArray(lib: Numbers, items: seq<Json>, level: nat, st: Style)
    requires forall k :: 0 <= k < |items| ==> WellFormed(lib, items[k])
    ensures var d := Laid(lib, Array(items), level, st);
            Valid(lib, d) && Value(lib, d) == Array(items) && Text(d) == Print(lib, Array(items), level, st)
    decreases items, 1, 0
  {
    hide PrintItems, ElementsText, ElementValues, LaidItems, Pad, Break, Lawful, WellFormed;
    LaidItemsDoc(lib, items, 0, level, st);
    assert items[0..] == items;
    assert AllSpace("");
    var body := PrintItems(lib, items, 0, level + 1, st);
    assert "[" + Break(st) + body + Pad(st, level) + "]" == "[" + (Break(st) + body + Pad(st, level)) + "]";
  }

  lemma LaidObject(lib: Numbers, ms: seq<Member>, level: nat, st: Style)
    requires WellFormed(lib, Object(ms))
    ensures var d := Laid(lib, Object(ms), level, st);
            Valid(lib, d) && Value(lib, d) == Object(ms) && Text(d) == Print(lib, Object(ms), level, st)
    decreases ms, 1, 0
  {
    hide PrintMembers, EntriesText, EntryValues, LaidMembers, Pad, Break, Lawful, ValidKey, PiecesValue;
    LaidMembersDoc(lib, ms, 0, level, st);
    assert ms[0..] == ms;
    assert AllSpace("");
    DistinctKeys(lib, LaidMembers(lib, ms, 0, level, st));
    var body := PrintMembers(lib, ms, 0, level + 1, st);
    assert "{" + Break(st) + body + Pad(st, level) + "}" == "{" + (Break(st) + body + Pad(st, level)) + "}";
  }

  lemma PrintedNumeral(lib: Numbers, n: real)
    requires lib.isDouble(n)
    ensures Numeral(lib, lib.format(n), n)
  {
    hide Decimals;
    var t := lib.format(n);
    assert t + [] == t && Delimited([]);
    assert NumberText(t) && Munched(lib, t);
    assert t[..|t|] == t;
    NumeralIsDecimal(t);
  }

  lemma LaidItemsStep(lib: Numbers, items: seq<Json>, i: nat, level: nat, st: Style)
    requires i < |items|
    ensures LaidItems(lib, items, i, level, st) ==
            [Element(Lead(level, st), Laid(lib, items[i], level + 1, st), Tail(i + 1 == |items|, level, st))]
            + LaidItems(lib, items, i + 1, level, st)
    ensures PrintItems(lib, items, i, level + 1, st) ==
            Pad(st, level + 1) + Print(lib, items[i], level + 1, st) + Separator(i, |items|, st)
            + PrintItems(lib, items, i + 1, level + 1, st)
    ensures i + 1 == |items| ==> PrintItems(lib, items, i + 1, level + 1, st) == ""
  {
    hide Lawful, Print, Laid, Lead, Tail, Pad, Separator;
  }

  lemma {:induction false} LaidItemsDoc(lib: Numbers, items: seq<Json>, i: nat, level: nat, st: Style)
    requires i <= |items| && forall k :: 0 <= k < |items| ==> WellFormed(lib, items[k])
    ensures var es := LaidItems(lib, items, i, level, st);
            && (forall k :: 0 <= k < |es| ==> AllSpace(es[k].before) && AllSpace(es[k].after))
            && (forall k :: 0 <= k < |es| ==> Valid(lib, es[k].doc))
            && ElementValues(lib, es) == items[i..]
            && ElementsText(es) ==
               if i == |items| then "" else Break(st) + PrintItems(lib, items, i, level + 1, st) + Pad(st, level)
    decreases items, 0, |items| - i
  {
    hide Lawful, WellFormed, Print, Laid, Valid, Value, Text, Pad, Break, AllSpace, PrintItems, LaidItems, ElementsText;
    if i == |items| {
      NoElementValues(lib);
    } else {
      var last := i + 1 == |items|;
      var e, tail := Element(Lead(level, st), Laid(lib, items[i], level + 1, st), Tail(last, level, st)),
                     LaidItems(lib, items, i + 1, level, st);
      BlanksAround(level, st);
      LaidItemsStep(lib, items, i, level, st);
      LaidDoc(lib, items[i], level + 1, st);
      LaidItemsDoc(lib, items, i + 1, level, st);
      ElementsJoin(lib, e, tail, "");
      assert items[i..] == [items[i]] + items[i + 1..];
      ItemLaid(Break(st), Pad(st, level + 1), Print(lib, items[i], level + 1, st), Pad(st, level), last,
               PrintItems(lib, items, i + 1, level + 1, st));
      assert ElementsText([e] + tail) + "" == ElementsText([e] + tail);
      assert ElementsText(tail) + "" == ElementsText(tail);
    }
  }

  lemma BlanksAround(level: nat, st: Style)
    ensures AllSpace(Lead(level, st)) && AllSpace(Tail(true, level, st)) && AllSpace(Tail(false, level, st))
  {
  }

  lemma ItemLaid(nl: string, pad: string, p: string, close: string, last: bool, more: string)
    requires last ==> more == ""
    ensures var tail := if last then "" else nl + more + close;
            nl + (pad + p + ((if last then "" else ",") + nl) + more) + close ==
            (nl + pad) + (p + ((if last then nl + close else "") + (Comma(!last) + tail)))
  {
  }

  function LaidMember(lib: Numbers, ms: seq<Member>, i: nat, level: nat, st: Style): Entry
    requires i < |ms|
  {
    Entry(Lead(level, st), PiecesFor(ms[i].name, st.slashes), "", if st.pretty then " " else "",
          Laid(lib, ms[i].value, level + 1, st), Tail(i + 1 == |ms|, level, st))
  }

  lemma LaidMembersStep(lib: Numbers, ms: seq<Member>, i: nat, level: nat, st: Style)
    requires i < |ms| && UniqueNames(ms)
    ensures LaidMembers(lib, ms, i, level, st) ==
            [LaidMember(lib, ms, i, level, st)] + LaidMembers(lib, ms, i + 1, level, st)
    ensures PrintMembers(lib, ms, i, level + 1, st) ==
            Pad(st, level + 1) + JsonText.Quote(ms[i].name, st.slashes) + Colon(st) + Print(lib, ms[i].value, level + 1, st)
            + Separator(i, |ms|, st) + PrintMembers(lib, ms, i + 1, level + 1, st)
    ensures i + 1 == |ms| ==> PrintMembers(lib, ms, i + 1, level + 1, st) == ""
  {
    hide Lawful, Print, Laid, Lead, Tail, Pad, Separator, Colon, JsonText.Quote, PiecesFor;
    UniqueIndex(ms, i);
  }

  lemma {:induction false} LaidMembersDoc(lib: Numbers, ms: seq<Member>, i: nat, level: nat, st: Style)
    requires i <= |ms| && UniqueNames(ms) && forall k :: 0 <= k < |ms| ==> WellFormed(lib, ms[k].value)
    requires forall k :: 0 <= k < |ms| ==> NulFree(ms[k].name)
    ensures var es := LaidMembers(lib, ms, i, level, st);
            && (forall k :: 0 <= k < |es| ==> ValidKey(es[k]))
            && (forall k :: 0 <= k < |es| ==> Valid(lib, es[k].doc))
            && EntryValues(lib, es) == ms[i..]
            && EntriesText(es) ==
               if i == |ms| then "" else Break(st) + PrintMembers(lib, ms, i, level + 1, st) + Pad(st, level)
    decreases ms, 0, |ms| - i
  {
    hide Lawful, WellFormed, Print, Laid, Valid, Value, Text, Pad, Break, AllSpace, ValidKey, Literal, JsonText.Quote,
         PiecesFor, PiecesValue, NulFree, UniqueNames, PrintMembers, LaidMembers, EntriesText, EntryValues, ValidPieces;
    if i == |ms| {
      NoEntries(lib);
    } else {
      var last, m := i + 1 == |ms|, ms[i];
      var e, tail := LaidMember(lib, ms, i, level, st), LaidMembers(lib, ms, i + 1, level, st);
      LaidMembersStep(lib, ms, i, level, st);
      LaidDoc(lib, m.value, level + 1, st);
      LaidMembersDoc(lib, ms, i + 1, level, st);
      LaidKey(e, m.name, level, st, last);
      EntriesJoin(lib, e, tail, "");
      assert ms[i..] == [m] + ms[i + 1..];
      MemberLaid(Break(st), Pad(st, level + 1), JsonText.Quote(m.name, st.slashes), e.gap,
                 Print(lib, m.value, level + 1, st), Pad(st, level), last, PrintMembers(lib, ms, i + 1, level + 1, st));
      assert EntriesText([e] + tail) + "" == EntriesText([e] + tail);
      assert EntriesText(tail) + "" == EntriesText(tail);
    }
  }

  lemma LaidKey(e: Entry, name: string, level: nat, st: Style, last: bool)
    requires NulFree(name)
    requires e.before == Lead(level, st) && e.after == Tail(last, level, st) && e.mid == ""
    requires e.gap == (if st.pretty then " " else "") && e.key == PiecesFor(name, st.slashes)
    ensures ValidKey(e) && PiecesValue(e.key) == name && Literal(e.key) == JsonText.Quote(name, st.slashes)
    ensures Colon(st) == ":" + e.gap
  {
    hide PiecesFor, JsonText.Escape, PiecesText;
    BlanksAround(level, st);
    PiecesForText(name, st.slashes);
  }

  lemma MemberLaid(nl: string, pad: string, q: string, gap: string, p: string, close: string, last: bool, more: string)
    requires last ==> more == ""
    ensures var tail := if last then "" else nl + more + close;
            nl + (pad + q + (":" + gap) + p + ((if last then "" else ",") + nl) + more) + close ==
            (nl + pad) + (q + ("" + (":" + (gap + (p + ((if last then nl + close else "") + (Comma(!last) + tail)))))))
  {
  }

  // ----- reading it back ------------------------------------------------------

  /** Printing a well-formed tree, compact or pretty, and parsing the result
    rebuilds the tree and consumes exactly the printed text, whatever delimiter
    follows it. */
  lemma ParsePrint(lib: Numbers, v: Json, level: nat, st: Style, nesting: nat, rest: string)
    requires WellFormed(lib, v) && FitsNesting(v, nesting) && Delimited(rest)
    ensures ParseValue(lib, Print(lib, v, level, st) + rest, nesting) == Ok(v, rest)
  {
    hide Print, Laid, WellFormed, FitsNesting, Valid, Value, Text, ParseValue, Lawful, Delimited;
    LaidDoc(lib, v, level, st);
    ReadDoc(lib, Laid(lib, v, level, st), nesting, rest);
  }

  lemma ParsePrintedString(s: string, st: Style, rest: string)
    ensures ParseString(JsonText.Quote(s, st.slashes) + rest) == Ok(String(s), rest)
  {
    hide JsonText.Quote, JsonText.GetQuoted;
    JsonText.QuotedRoundTrip(s, st.slashes, rest);
    var q := JsonText.Quote(s, st.slashes);
    assert (q + rest)[|q|..] == rest;
  }

  // ----- whole texts -------------------------------------------------------

  /** `json_parse_string` of what either serializer prints. */
  lemma ParsePrintedText(lib: Numbers, v: Json, st: Style)
    requires WellFormed(lib, v) && FitsNesting(v, 0)
    ensures ParseText(lib, Print(lib, v, 0, st)) == Ok(v, "")
  {
    var text := Print(lib, v, 0, st);
    PrintStarts(lib, v, 0, st);
    ParsePrint(lib, v, 0, st, 0, "");
    assert text + "" == text;
    NoByteOrderMark(text);
  }

  lemma NoByteOrderMark(text: string)
    requires text != [] && StartsValue(text[0])
    ensures !StartsWith(text, BOM)
  {
    assert |text| >= 3 ==> text[..3][0] == text[0];
  }

  // ----- every parsed tree is well formed ----------------------------------

  /** Whatever text the parser accepts, the tree it returns satisfies the
    conditions of `ParsePrint`: it can be printed and parsed back. */
  lemma {:induction false} ParsedIsWellFormed(lib: Numbers, s: string, nesting: nat)
    requires ParseValue(lib, s, nesting).Ok?
    ensures WellFormed(lib, ParseValue(lib, s, nesting).value)
    ensures FitsNesting(ParseValue(lib, s, nesting).value, nesting)
    decreases |s|, 1
  {
    hide ParseArray, ParseObject, ParseString, ParseBoolean, ParseNumber, ParseNull, SkipSpace, WellFormed, FitsNesting;
    var t := SkipSpace(s);
    if Peek(t) == '{' {
      ParsedObject(lib, t, nesting + 1);
    } else if Peek(t) == '[' {
      ParsedArray(lib, t, nesting + 1);
    } else {
      ParsedScalar(lib, t, nesting);
    }
  }

  lemma ParsedScalar(lib: Numbers, t: string, nesting: nat)
    requires nesting <= MAX_NESTING
    ensures ParseString(t).Ok? ==> WellFormed(lib, ParseString(t).value) && FitsNesting(ParseString(t).value, nesting)
    ensures ParseBoolean(t).Ok? ==> WellFormed(lib, ParseBoolean(t).value) && FitsNesting(ParseBoolean(t).value, nesting)
    ensures ParseNumber(lib, t).Ok? ==>
              WellFormed(lib, ParseNumber(lib, t).value) && FitsNesting(ParseNumber(lib, t).value, nesting)
    ensures ParseNull(t).Ok? ==> WellFormed(lib, ParseNull(t).value) && FitsNesting(ParseNull(t).value, nesting)
  {
    hide JsonText.GetQuoted, StartsWith, IsDecimal;
  }

  lemma ParsedArray(lib: Numbers, t: string, nesting: nat)
    requires 0 < nesting <= MAX_NESTING + 1 && ParseArray(lib, t, nesting).Ok?
    ensures WellFormed(lib, ParseArray(lib, t, nesting).value)
    ensures FitsNesting(ParseArray(lib, t, nesting).value, nesting - 1)
    decreases |t|, 0
  {
    hide ParseItems, SkipSpace;
    if Peek(SkipSpace(t[1..])) != ']' {
      ParsedItems(lib, SkipSpace(t[1..]), nesting, []);
    }
  }

  lemma ParsedObject(lib: Numbers, t: string, nesting: nat)
    requires 0 < nesting <= MAX_NESTING + 1 && ParseObject(lib, t, nesting).Ok?
    ensures WellFormed(lib, ParseObject(lib, t, nesting).value)
    ensures FitsNesting(ParseObject(lib, t, nesting).value, nesting - 1)
    decreases |t|, 0
  {
    hide ParseMembers, SkipSpace;
    if Peek(SkipSpace(t[1..])) != '}' {
      ParsedMembers(lib, SkipSpace(t[1..]), nesting, []);
    }
  }

  lemma {:induction false} ParsedItems(lib: Numbers, s: string, nesting: nat, sofar: seq<Json>)
    requires ParseItems(lib, s, nesting, sofar).Ok?
    requires forall i :: 0 <= i < |sofar| ==> WellFormed(lib, sofar[i]) && FitsNesting(sofar[i], nesting)
    ensures var items := ParseItems(lib, s, nesting, sofar).value;
            forall i :: 0 <= i < |items| ==> WellFormed(lib, items[i]) && FitsNesting(items[i], nesting)
    decreases |s|, 2
  {
    hide ParseValue, WellFormed, FitsNesting, SkipSpace;
    ParsedIsWellFormed(lib, s, nesting);
    var v := ParseValue(lib, s, nesting);
    var t := SkipSpace(v.rest);
    if Peek(t) == ',' {
      ParsedItems(lib, SkipSpace(t[1..]), nesting, sofar + [v.value]);
    }
  }

  /** The members read so far are as a well-formed object wants them. */
  ghost predicate GoodMembers(lib: Numbers, ms: seq<Member>, nesting: nat) {
    && UniqueNames(ms)
    && (forall i :: 0 <= i < |ms| ==> NulFree(ms[i].name))
    && (forall i :: 0 <= i < |ms| ==> WellFormed(lib, ms[i].value))
    && (forall i :: 0 <= i < |ms| ==> FitsNesting(ms[i].value, nesting))
  }

  lemma GoodMember(lib: Numbers, ms: seq<Member>, nesting: nat, m: Member)
    requires GoodMembers(lib, ms, nesting) && GetValue(ms, m.name).None?
    requires NulFree(m.name) && WellFormed(lib, m.value) && FitsNesting(m.value, nesting)
    ensures GoodMembers(lib, ms + [m], nesting)
  {
    hide WellFormed, FitsNesting, NulFree;
  }

  lemma {:induction false} ParsedMembers(lib: Numbers, s: string, nesting: nat, sofar: seq<Member>)
    requires ParseMembers(lib, s, nesting, sofar).Ok? && GoodMembers(lib, sofar, nesting)
    ensures GoodMembers(lib, ParseMembers(lib, s, nesting, sofar).value, nesting)
    decreases |s|, 2
  {
    hide ParseValue, ParseKey, WellFormed, FitsNesting, NulFree, GoodMembers, SkipSpace, GetValue;
    var k := ParseKey(s);
    ParsedIsWellFormed(lib, k.rest, nesting);
    var v := ParseValue(lib, k.rest, nesting);
    GoodMember(lib, sofar, nesting, Member(k.value, v.value));
    var t := SkipSpace(v.rest);
    if Peek(t) == ',' {
      ParsedMembers(lib, SkipSpace(t[1..]), nesting, sofar + [Member(k.value, v.value)]);
    }
  }

  // ----- exactly the texts of the grammar -------------------------------------

  /** The text is a document of that value, within the nesting limit, between blanks and
    the rest. */
  ghost predicate Written(lib: Numbers, s: string, nesting: nat, v: Json, rest: string) {
    FitsNesting(v, nesting) && exists ws, d :: WrittenAs(lib, s, v, rest, ws, d)
  }

  predicate WrittenAs(lib: Numbers, s: string, v: Json, rest: string, ws: string, d: Doc) {
    && AllSpace(ws) && Valid(lib, d) && Value(lib, d) == v
    && s == ws + (Text(d) + rest) && Ends(lib, d, rest)
  }

  /** `parse_value` accepts a text with a value and leaves a rest exactly when the grammar
    says so; but a lone minus sign passes for zero. */
  lemma ParseExactly(lib: Numbers, s: string, nesting: nat, v: Json, rest: string)
    ensures ParseValue(lib, s, nesting) == Ok(v, rest) <==>
            || Written(lib, s, nesting, v, rest)
            || (LoneMinus(lib, s) && nesting <= MAX_NESTING && v == Number(0.0) && rest == SkipSpace(s))
  {
    hide Valid, Value, Text, ParseValue, FitsNesting, AllSpace, SkipSpace, Lawful, Ends, WellFormed;
    if LoneMinus(lib, s) && nesting <= MAX_NESTING {
      ReadLoneMinus(lib, s, nesting);
    }
    if ParseValue(lib, s, nesting) == Ok(v, rest) {
      ParsedIsWellFormed(lib, s, nesting);
      ParseWithin(lib, s, nesting);
      if !LoneMinus(lib, s) {
        var ws, d := DocOf(lib, s, nesting);
        assert WrittenAs(lib, s, v, rest, ws, d);
      }
    } else if Written(lib, s, nesting, v, rest) {
      var ws, d :| WrittenAs(lib, s, v, rest, ws, d);
      ReadDoc(lib, d, nesting, rest);
      SkipSpacePrefix(ws, Text(d) + rest);
      ParseValueSkips(lib, s, Text(d) + rest, nesting);
    }
  }

  lemma ParseWithin(lib: Numbers, s: string, nesting: nat)
    ensures ParseValue(lib, s, nesting).Ok? ==> nesting <= MAX_NESTING
  {
    hide SkipSpace, Lawful;
  }

  lemma ReadLoneMinus(lib: Numbers, s: string, nesting: nat)
    requires LoneMinus(lib, s) && nesting <= MAX_NESTING
    ensures Peek(SkipSpace(s)) == '-' && ParseValue(lib, s, nesting) == Ok(Number(0.0), SkipSpace(s))
  {
    hide SkipSpace, ParseObject, ParseArray, Decimals;
    assert Munched(lib, SkipSpace(s));
    assert SkipSpace(s)[..0] == "";
  }

  /** In front of a delimiter, there is no exception. */
  lemma ParseDelimited(lib: Numbers, s: string, nesting: nat, v: Json, rest: string)
    requires Delimited(rest)
    ensures ParseValue(lib, s, nesting) == Ok(v, rest) <==> Written(lib, s, nesting, v, rest)
  {
    hide Written, ParseValue, SkipSpace, Lawful;
    ParseExactly(lib, s, nesting, v, rest);
    if LoneMinus(lib, s) && nesting <= MAX_NESTING {
      ReadLoneMinus(lib, s, nesting);
    }
  }

  /** `json_parse_string`: the text behind the three octets of a byte order mark, if it has
    one, is the text of the grammar. */
  lemma ParseTextExactly(lib: Numbers, s: string, v: Json, rest: string)
    requires Delimited(rest)
    ensures var marked := |s| >= 3 && s[0] as int == 0xEF && s[1] as int == 0xBB && s[2] as int == 0xBF;
            ParseText(lib, s) == Ok(v, rest) <==> Written(lib, if marked then s[3..] else s, 0, v, rest)
  {
    hide Written, ParseValue, Lawful, Delimited;
    var marked := |s| >= 3 && s[0] as int == 0xEF && s[1] as int == 0xBB && s[2] as int == 0xBF;
    ParseDelimited(lib, if marked then s[3..] else s, 0, v, rest);
    if |s| >= 3 {
      assert s[..3] == [s[0], s[1], s[2]];
    }
  }

  /** Zeros in front of a digit are refused, whatever follows. */
  lemma LeadingZeroRefused(lib: Numbers, d: char, more: string, nesting: nat)
    requires IsDigit(d)
    ensures ParseValue(lib, ['0', d] + more, nesting).Fail? && ParseValue(lib, ['-', '0', d] + more, nesting).Fail?
  {
    hide ParseValue, Decimals, SkipSpace, Lawful;
    LeadingZeroNumber(lib, "", d, more);
    LeadingZeroNumber(lib, "-", d, more);
    if nesting <= MAX_NESTING {
      DispatchScalar(lib, ['0', d] + more, nesting);
      DispatchScalar(lib, ['-', '0', d] + more, nesting);
      assert "" + ['0', d] + more == ['0', d] + more && "-" + ['0', d] + more == ['-', '0', d] + more;
    } else {
      ParseWithin(lib, ['0', d] + more, nesting);
      ParseWithin(lib, ['-', '0', d] + more, nesting);
    }
  }

  lemma LeadingZeroNumber(lib: Numbers, sign: string, d: char, more: string)
    requires IsDigit(d) && (sign == "" || sign == "-")
    ensures ParseNumber(lib, sign + ['0', d] + more).Fail?
  {
    hide Decimals;
    var s := sign + ['0', d] + more;
    assert Munched(lib, s);
  }

  /** A number after section 6 of RFC 8259. */
  predicate RfcNumber(t: string) {
    var u := Unsigned(t);
    var i := Digits(u);
    && i > 0 && (i > 1 ==> u[0] != '0')
    && if i < |u| && u[i] == '.' then
         var j := Digits(u[i + 1..]);
         j > 0 && (i + 1 + j == |u| || Exponent(u[i + 1 + j..]))
       else
         i == |u| || Exponent(u[i..])
  }

  /** An exponent directly behind a single zero. */
  predicate ZeroExponent(t: string) {
    var u := Unsigned(t);
    |u| > 1 && u[0] == '0' && (u[1] == 'e' || u[1] == 'E')
  }

  /** Every number of RFC 8259 that `strtod` can represent is accepted, but for those. */
  lemma RfcNumberAccepted(lib: Numbers, t: string, nesting: nat, rest: string)
    requires RfcNumber(t) && lib.strtod(t).Scanned? && Delimited(rest) && nesting <= MAX_NESTING
    ensures ParseValue(lib, t + rest, nesting) ==
            if ZeroExponent(t) then Fail else Ok(Number(lib.strtod(t).value), rest)
  {
    hide ParseValue, Delimited;
    assert Decimals(t) && (LeadingZero(t) <==> ZeroExponent(t));
    assert UsesJust(lib, t, rest) || Delimited(rest);
    assert (t + rest)[..|t|] == t && (t + rest)[|t|..] == rest;
    DispatchScalar(lib, t + rest, nesting);
    NumeralIsDecimal(t);
    assert lib.strtod(t + rest) == lib.strtod(t);
  }

  // ----- the nesting limit ----------------------------------------------------

  /** Arrays within arrays. */
  function Deep(n: nat): Json {
    Array(if n <= 1 then [] else [Deep(n - 1)])
  }

  function Opening(n: nat): string {
    if n == 0 then "" else "[" + Opening(n - 1)
  }

  function Closing(n: nat): string {
    if n == 0 then "" else Closing(n - 1) + "]"
  }

  /** 2049 brackets are accepted, and no more. */
  lemma {:induction false} NestingExactly(lib: Numbers, n: nat, nesting: nat, rest: string)
    requires n > 0
    ensures ParseValue(lib, Opening(n) + (Closing(n) + rest), nesting) ==
            if nesting + n <= 2049 then Ok(Deep(n), rest) else Fail
    decreases n
  {
    hide ParseValue, ParseArray, Lawful;
    var text := Opening(n) + (Closing(n) + rest);
    if n == 1 {
      assert Opening(0) == "" && Closing(0) == "" && text == "[]" + rest;
      EmptyBrackets(lib, nesting + 1, rest);
    } else {
      var inner := Opening(n - 1) + (Closing(n - 1) + ("]" + rest));
      assert text == "[" + inner;
      NestingExactly(lib, n - 1, nesting + 1, "]" + rest);
      DeeperArray(lib, inner, nesting + 1, n - 1, rest);
    }
    if nesting <= MAX_NESTING {
      DispatchArray(lib, text, nesting);
    } else {
      ParseWithin(lib, text, nesting);
    }
  }

  lemma DeeperArray(lib: Numbers, inner: string, nesting: nat, n: nat, rest: string)
    requires n > 0 && inner != "" && inner[0] == '['
    requires ParseValue(lib, inner, nesting) == if nesting + n <= 2049 then Ok(Deep(n), "]" + rest) else Fail
    ensures ParseArray(lib, "[" + inner, nesting) == if nesting + n <= 2049 then Ok(Array([Deep(n)]), rest) else Fail
  {
    hide ParseValue, Lawful;
    NothingToSkip(inner);
    NothingToSkip("]" + rest);
    assert ("[" + inner)[1..] == inner;
    if nesting + n <= 2049 {
      ItemsEnd(lib, inner, nesting, [], Deep(n), "]" + rest, rest);
      assert [] + [Deep(n)] == [Deep(n)];
    }
  }
}
