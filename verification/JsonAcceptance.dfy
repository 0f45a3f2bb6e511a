/** The parser accepts exactly the texts of the grammar, with their values. */
module JsonAcceptance {
  import opened Wrappers
  import opened CString
  import opened Libc
  import opened JsonValue
  import opened JsonParser
  import opened JsonGrammar
  import opened JsonLiterals
  import JsonText

  // ----- the first character of a value ----------------------------

  /** A character that starts a value, and no other piece of JSON text. */
  predicate StartsValue(c: char) {
    c == '{' || c == '[' || c == '\"' || c == 'f' || c == 't' || c == 'n' || c == '-' || IsDigit(c)
  }

  // ----- one step of the parser --------------------------------------------

  lemma DispatchObject(lib: Numbers, s: string, nesting: nat)
    requires Peek(s) == '{' && nesting <= MAX_NESTING
    ensures ParseValue(lib, s, nesting) == ParseObject(lib, s, nesting + 1)
  {
    NothingToSkip(s);
    hide ParseObject, SkipSpace;
  }

  lemma DispatchArray(lib: Numbers, s: string, nesting: nat)
    requires Peek(s) == '[' && nesting <= MAX_NESTING
    ensures ParseValue(lib, s, nesting) == ParseArray(lib, s, nesting + 1)
  {
    NothingToSkip(s);
    hide ParseArray, SkipSpace;
  }

  lemma DispatchScalar(lib: Numbers, s: string, nesting: nat)
    requires nesting <= MAX_NESTING && StartsValue(Peek(s))
    ensures Peek(s) == '\"' ==> ParseValue(lib, s, nesting) == ParseString(s)
    ensures Peek(s) == 't' || Peek(s) == 'f' ==> ParseValue(lib, s, nesting) == ParseBoolean(s)
    ensures Peek(s) == '-' || IsDigit(Peek(s)) ==> ParseValue(lib, s, nesting) == ParseNumber(lib, s)
    ensures Peek(s) == 'n' ==> ParseValue(lib, s, nesting) == ParseNull(s)
  {
    NothingToSkip(s);
    hide ParseObject, ParseArray, ParseString, ParseBoolean, ParseNumber, ParseNull, SkipSpace;
  }

  lemma OpenArray(lib: Numbers, inner: string, nesting: nat, items: seq<Json>, rest: string)
    requires Peek(SkipSpace(inner)) != ']'
    requires ParseItems(lib, SkipSpace(inner), nesting, []) == Ok(items, rest)
    ensures ParseArray(lib, "[" + inner, nesting) == Ok(Array(items), rest)
  {
    hide ParseItems, SkipSpace;
    assert ("[" + inner)[1..] == inner;
  }

  lemma OpenObject(lib: Numbers, inner: string, nesting: nat, ms: seq<Member>, rest: string)
    requires Peek(SkipSpace(inner)) != '}'
    requires ParseMembers(lib, SkipSpace(inner), nesting, []) == Ok(ms, rest)
    ensures ParseObject(lib, "{" + inner, nesting) == Ok(Object(ms), rest)
  {
    hide ParseMembers, SkipSpace;
    assert ("{" + inner)[1..] == inner;
  }

  lemma EmptyBrackets(lib: Numbers, nesting: nat, rest: string)
    ensures ParseArray(lib, "[]" + rest, nesting) == Ok(Array([]), rest)
    ensures ParseObject(lib, "{}" + rest, nesting) == Ok(Object([]), rest)
  {
    hide ParseItems, ParseMembers, SkipSpace;
    assert ("[]" + rest)[1..] == "]" + rest && ("]" + rest)[1..] == rest;
    assert ("{}" + rest)[1..] == "}" + rest && ("}" + rest)[1..] == rest;
    NothingToSkip("]" + rest);
    NothingToSkip("}" + rest);
  }

  lemma ItemsMore(lib: Numbers, s: string, nesting: nat, sofar: seq<Json>, v: Json, more: string)
    requires Peek(s) != NUL && ParseValue(lib, s, nesting) == Ok(v, more)
    requires Peek(SkipSpace(more)) == ','
    ensures ParseItems(lib, s, nesting, sofar) ==
            ParseItems(lib, SkipSpace(SkipSpace(more)[1..]), nesting, sofar + [v])
  {
    hide ParseValue, SkipSpace;
  }

  lemma ItemsEnd(lib: Numbers, s: string, nesting: nat, sofar: seq<Json>, v: Json, more: string, rest: string)
    requires Peek(s) != NUL && ParseValue(lib, s, nesting) == Ok(v, more)
    requires SkipSpace(more) == "]" + rest
    ensures ParseItems(lib, s, nesting, sofar) == Ok(sofar + [v], rest)
  {
    hide ParseValue, SkipSpace;
    assert ("]" + rest)[1..] == rest;
  }

  lemma MembersMore(lib: Numbers, s: string, nesting: nat, sofar: seq<Member>, key: string, v: Json, more: string)
    requires Peek(s) != NUL && ParseKey(s).Ok? && ParseKey(s).value == key
    requires ParseValue(lib, ParseKey(s).rest, nesting) == Ok(v, more)
    requires GetValue(sofar, key).None? && Peek(SkipSpace(more)) == ','
    ensures ParseMembers(lib, s, nesting, sofar) ==
            ParseMembers(lib, SkipSpace(SkipSpace(more)[1..]), nesting, sofar + [Member(key, v)])
  {
    hide ParseValue, ParseKey, GetValue, SkipSpace;
  }

  lemma MembersEnd(lib: Numbers, s: string, nesting: nat, sofar: seq<Member>, key: string, v: Json, more: string,
                   rest: string)
    requires Peek(s) != NUL && ParseKey(s).Ok? && ParseKey(s).value == key
    requires ParseValue(lib, ParseKey(s).rest, nesting) == Ok(v, more)
    requires GetValue(sofar, key).None? && SkipSpace(more) == "}" + rest
    ensures ParseMembers(lib, s, nesting, sofar) == Ok(sofar + [Member(key, v)], rest)
  {
    hide ParseValue, ParseKey, GetValue, SkipSpace;
    assert ("}" + rest)[1..] == rest;
  }

  lemma ParseValueSkips(lib: Numbers, s: string, t: string, nesting: nat)
    requires SkipSpace(s) == SkipSpace(t)
    ensures ParseValue(lib, s, nesting) == ParseValue(lib, t, nesting)
  {
    hide ParseObject, ParseArray, ParseString, ParseBoolean, ParseNumber, ParseNull, SkipSpace;
  }

  // ----- every document is read -----------------------------------------------

  /** A numeral must end where the document does. */
  predicate Ends(lib: Numbers, d: Doc, rest: string) {
    d.NumberDoc? ==> Delimited(rest) || UsesJust(lib, d.numeral, rest)
  }

  lemma TextStarts(lib: Numbers, d: Doc)
    requires Valid(lib, d)
    ensures Text(d) != [] && StartsValue(Text(d)[0])
  {
  }

  /** A valid document is read whole, with its value, in front of any text that ends it. */
  lemma {:induction false} ReadDoc(lib: Numbers, d: Doc, nesting: nat, rest: string)
    requires Valid(lib, d) && FitsNesting(Value(lib, d), nesting) && Ends(lib, d, rest)
    ensures ParseValue(lib, Text(d) + rest, nesting) == Ok(Value(lib, d), rest)
    decreases d, 1, 0
  {
    hide ParseValue, SkipSpace, Delimited, UsesJust;
    match d
    case ArrayDoc(blank, es) => ReadArrayDoc(lib, blank, es, nesting, rest);
    case ObjectDoc(blank, es) => ReadObjectDoc(lib, blank, es, nesting, rest);
    case _ => ReadScalar(lib, d, nesting, rest);
  }

  lemma ReadScalar(lib: Numbers, d: Doc, nesting: nat, rest: string)
    requires Valid(lib, d) && nesting <= MAX_NESTING && Ends(lib, d, rest) && !d.ArrayDoc? && !d.ObjectDoc?
    ensures ParseValue(lib, Text(d) + rest, nesting) == Ok(Value(lib, d), rest)
  {
    hide ParseValue, ParseNumber, Delimited, UsesJust, JsonText.GetQuoted, Literal, PiecesValue, Lawful;
    TextStarts(lib, d);
    var s := Text(d) + rest;
    DispatchScalar(lib, s, nesting);
    match d
    case NullDoc => assert s[..4] == "null" && s[4..] == rest;
    case BooleanDoc(b) =>
      if b {
        assert s[..4] == "true" && s[4..] == rest;
      } else {
        assert s[..4][0] == 'f' && s[..5] == "false" && s[5..] == rest;
      }
    case NumberDoc(t, n) => ReadNumeral(lib, t, n, rest);
    case StringDoc(ps) =>
      LiteralStarts(ps);
      QuotedLiteral(ps, rest);
      assert s[|Literal(ps)|..] == rest;
  }

  lemma LiteralStarts(ps: seq<Piece>)
    ensures Literal(ps) != [] && Literal(ps)[0] == '\"'
  {
  }

  /** The blanks in front of a closing bracket. */
  lemma SkipToBracket(blank: string, bracket: char, rest: string)
    requires AllSpace(blank) && (bracket == ']' || bracket == '}')
    ensures SkipSpace(blank + ([bracket] + rest)) == [bracket] + rest
    ensures Delimited(blank + ([bracket] + rest))
  {
    SkipSpacePrefix(blank, [bracket] + rest);
    NothingToSkip([bracket] + rest);
  }

  // ----- arrays ---------------------------------------------------------------

  /** What a valid array within the nesting limit consists of. */
  lemma ArrayParts(lib: Numbers, blank: string, es: seq<Element>, nesting: nat)
    requires Valid(lib, ArrayDoc(blank, es)) && FitsNesting(Value(lib, ArrayDoc(blank, es)), nesting)
    ensures AllSpace(blank) && nesting <= MAX_NESTING
    ensures forall i :: 0 <= i < |es| ==> AllSpace(es[i].before) && AllSpace(es[i].after)
    ensures forall i :: 0 <= i < |es| ==> Valid(lib, es[i].doc)
    ensures Value(lib, ArrayDoc(blank, es)) == Array(ElementValues(lib, es))
    ensures forall i :: 0 <= i < |es| ==> FitsNesting(ElementValues(lib, es)[i], nesting + 1)
  {
  }

  lemma ReadArrayDoc(lib: Numbers, blank: string, es: seq<Element>, nesting: nat, rest: string)
    requires Valid(lib, ArrayDoc(blank, es)) && FitsNesting(Value(lib, ArrayDoc(blank, es)), nesting)
    ensures ParseValue(lib, Text(ArrayDoc(blank, es)) + rest, nesting) == Ok(Value(lib, ArrayDoc(blank, es)), rest)
    decreases es, 2, 0
  {
    hide ParseValue, ParseArray, ParseItems, SkipSpace, ElementsText, ElementValues, AllSpace, Valid, FitsNesting, Value, Lawful;
    ArrayParts(lib, blank, es, nesting);
    var inner := if es == [] then blank else ElementsText(es);
    var text := Text(ArrayDoc(blank, es)) + rest;
    Wrap("[", inner, "]", rest);
    DispatchArray(lib, text, nesting);
    if es == [] {
      EmptyArray(lib, blank, nesting + 1, rest);
    } else {
      ElementsStart(lib, es, "]" + rest);
      ReadElements(lib, es, nesting + 1, [], rest);
      assert [] + ElementValues(lib, es) == ElementValues(lib, es);
      OpenArray(lib, inner + ("]" + rest), nesting + 1, ElementValues(lib, es), rest);
    }
  }

  lemma Wrap(a: string, b: string, c: string, rest: string)
    ensures a + b + c + rest == a + (b + (c + rest))
  {
  }

  lemma EmptyArray(lib: Numbers, blank: string, nesting: nat, rest: string)
    requires AllSpace(blank)
    ensures ParseArray(lib, "[" + (blank + ("]" + rest)), nesting) == Ok(Array(ElementValues(lib, [])), rest)
  {
    hide ParseItems, SkipSpace;
    SkipToBracket(blank, ']', rest);
    var s := "[" + (blank + ("]" + rest));
    assert s[1..] == blank + ("]" + rest) && ("]" + rest)[1..] == rest;
  }

  /** The text behind the first element. */
  function AfterElement(es: seq<Element>, close: string): string
    requires es != []
  {
    es[0].after + (Comma(|es| > 1) + (ElementsText(es[1..]) + close))
  }

  lemma ElementsStart(lib: Numbers, es: seq<Element>, close: string)
    requires es != [] && Valid(lib, es[0].doc) && AllSpace(es[0].before)
    ensures SkipSpace(ElementsText(es) + close) == Text(es[0].doc) + AfterElement(es, close)
    ensures StartsValue(Peek(SkipSpace(ElementsText(es) + close)))
  {
    hide Text, SkipSpace, AllSpace, Valid, AfterElement, ElementsText;
    var body := Text(es[0].doc) + AfterElement(es, close);
    ElementsRegroup(es, close);
    TextStarts(lib, es[0].doc);
    SkipSpacePrefix(es[0].before, body);
    NothingToSkip(body);
  }

  lemma ElementsRegroup(es: seq<Element>, close: string)
    requires es != []
    ensures ElementsText(es) + close == es[0].before + (Text(es[0].doc) + AfterElement(es, close))
  {
    hide Text, Comma;
    Regroup5(es[0].before, Text(es[0].doc), es[0].after, Comma(|es| > 1), ElementsText(es[1..]), close);
  }

  lemma Regroup5(a: string, b: string, c: string, d: string, e: string, rest: string)
    ensures a + b + c + d + e + rest == a + (b + (c + (d + (e + rest))))
  {
  }

  /** What follows a value ends it, and shows the comma or the closing bracket. */
  lemma AfterValue(after: string, more: bool, tail: string, close: string)
    requires AllSpace(after) && (Peek(close) == ']' || Peek(close) == '}') && (!more ==> tail == "")
    ensures var text := after + (Comma(more) + (tail + close));
            && Delimited(text)
            && (more ==> Peek(SkipSpace(text)) == ',' && SkipSpace(text)[1..] == tail + close)
            && (!more ==> SkipSpace(text) == close)
  {
    hide SkipSpace;
    var shown := Comma(more) + (tail + close);
    assert !more ==> shown == close;
    SkipSpacePrefix(after, shown);
    NothingToSkip(shown);
  }

  /** One turn of the loop over the elements. */
  lemma ReadElement(lib: Numbers, es: seq<Element>, nesting: nat, sofar: seq<Json>, close: string)
    requires es != [] && AllSpace(es[0].before) && AllSpace(es[0].after) && Valid(lib, es[0].doc) && Peek(close) == ']'
    requires FitsNesting(Value(lib, es[0].doc), nesting)
    ensures ParseItems(lib, SkipSpace(ElementsText(es) + close), nesting, sofar) ==
            if |es| > 1 then
              ParseItems(lib, SkipSpace(ElementsText(es[1..]) + close), nesting, sofar + [Value(lib, es[0].doc)])
            else Ok(sofar + [Value(lib, es[0].doc)], close[1..])
    decreases es, 0, 0
  {
    hide ParseValue, ParseItems, SkipSpace, Text, Delimited, AllSpace, FitsNesting, Valid, ElementsText, Lawful, Value;
    var s, d, more := SkipSpace(ElementsText(es) + close), es[0].doc, AfterElement(es, close);
    var v := Value(lib, d);
    ElementsStart(lib, es, close);
    NoElements();
    assert |es| == 1 ==> es[1..] == [];
    AfterValue(es[0].after, |es| > 1, ElementsText(es[1..]), close);
    ReadDoc(lib, d, nesting, more);
    if |es| > 1 {
      ItemsMore(lib, s, nesting, sofar, v, more);
    } else {
      assert close == "]" + close[1..];
      ItemsEnd(lib, s, nesting, sofar, v, more, close[1..]);
    }
  }

  lemma {:induction false} ReadElements(lib: Numbers, es: seq<Element>, nesting: nat, sofar: seq<Json>, rest: string)
    requires es != [] && forall i :: 0 <= i < |es| ==> AllSpace(es[i].before) && AllSpace(es[i].after)
    requires forall i :: 0 <= i < |es| ==> Valid(lib, es[i].doc)
    requires forall i :: 0 <= i < |es| ==> FitsNesting(ElementValues(lib, es)[i], nesting)
    ensures ParseItems(lib, SkipSpace(ElementsText(es) + ("]" + rest)), nesting, sofar) ==
            Ok(sofar + ElementValues(lib, es), rest)
    decreases es, 1, 0
  {
    hide ParseItems, SkipSpace, Text, AllSpace, FitsNesting, Valid, ElementsText, Lawful, Value, ElementValues;
    var vs, tail := ElementValues(lib, es), es[1..];
    ElementValuesStep(lib, es);
    assert vs[0] == Value(lib, es[0].doc);
    ReadElement(lib, es, nesting, sofar, "]" + rest);
    if tail == [] {
      assert ElementValues(lib, tail) == [];
      assert ("]" + rest)[1..] == rest && sofar + vs == sofar + [vs[0]];
    } else {
      assert vs[1..] == ElementValues(lib, tail);
      ReadElements(lib, tail, nesting, sofar + [vs[0]], rest);
      assert sofar + [vs[0]] + ElementValues(lib, tail) == sofar + vs;
    }
  }

  lemma ElementValuesStep(lib: Numbers, es: seq<Element>)
    requires es != [] && forall i :: 0 <= i < |es| ==> Valid(lib, es[i].doc)
    ensures ElementValues(lib, es) == [Value(lib, es[0].doc)] + ElementValues(lib, es[1..])
  {
  }

  lemma NoElements()
    ensures ElementsText([]) == "" && EntriesText([]) == ""
  {
  }

  // ----- objects --------------------------------------------------------------

  lemma ObjectParts(lib: Numbers, blank: string, es: seq<Entry>, nesting: nat)
    requires Valid(lib, ObjectDoc(blank, es)) && FitsNesting(Value(lib, ObjectDoc(blank, es)), nesting)
    ensures AllSpace(blank) && nesting <= MAX_NESTING
    ensures forall i :: 0 <= i < |es| ==> ValidKey(es[i])
    ensures forall i :: 0 <= i < |es| ==> Valid(lib, es[i].doc)
    ensures Value(lib, ObjectDoc(blank, es)) == Object(EntryValues(lib, es))
    ensures forall i :: 0 <= i < |es| ==> FitsNesting(EntryValues(lib, es)[i].value, nesting + 1)
    ensures NewNames([], EntryValues(lib, es))
  {
    hide ValidKey, PiecesValue, FitsNesting, EntryValues;
    assert Value(lib, ObjectDoc(blank, es)) == Object(EntryValues(lib, es));
    ObjectFits(EntryValues(lib, es), nesting);
    forall i, j | 0 <= i < j < |es|
      ensures EntryValues(lib, es)[i].name != EntryValues(lib, es)[j].name
    {
      EntryAt(lib, es, i);
      EntryAt(lib, es, j);
    }
  }

  lemma ObjectFits(ms: seq<Member>, nesting: nat)
    requires FitsNesting(Object(ms), nesting)
    ensures nesting <= MAX_NESTING
    ensures forall i :: 0 <= i < |ms| ==> FitsNesting(ms[i].value, nesting + 1)
  {
  }

  lemma {:induction false} EntryAt(lib: Numbers, es: seq<Entry>, i: nat)
    requires forall i :: 0 <= i < |es| ==> ValidKey(es[i])
    requires forall i :: 0 <= i < |es| ==> Valid(lib, es[i].doc)
    requires i < |es|
    ensures ValidKey(es[i]) && EntryValues(lib, es)[i].name == PiecesValue(es[i].key)
  {
    hide ValidKey, PiecesValue, Valid, Value;
    if i > 0 {
      EntryAt(lib, es[1..], i - 1);
      assert es[1..][i - 1] == es[i];
    }
  }

  lemma ReadObjectDoc(lib: Numbers, blank: string, es: seq<Entry>, nesting: nat, rest: string)
    requires Valid(lib, ObjectDoc(blank, es)) && FitsNesting(Value(lib, ObjectDoc(blank, es)), nesting)
    ensures ParseValue(lib, Text(ObjectDoc(blank, es)) + rest, nesting) == Ok(Value(lib, ObjectDoc(blank, es)), rest)
    decreases es, 2, 0
  {
    hide ParseValue, ParseObject, ParseMembers, SkipSpace, EntriesText, EntryValues, AllSpace, ValidKey, Valid, FitsNesting,
         Value, NewNames, Lawful;
    ObjectParts(lib, blank, es, nesting);
    var inner := if es == [] then blank else EntriesText(es);
    var text := Text(ObjectDoc(blank, es)) + rest;
    Wrap("{", inner, "}", rest);
    DispatchObject(lib, text, nesting);
    if es == [] {
      EmptyObject(lib, blank, nesting + 1, rest);
    } else {
      EntriesStart(es, "}" + rest);
      ReadEntries(lib, es, nesting + 1, [], rest);
      assert [] + EntryValues(lib, es) == EntryValues(lib, es);
      OpenObject(lib, inner + ("}" + rest), nesting + 1, EntryValues(lib, es), rest);
    }
  }

  lemma EmptyObject(lib: Numbers, blank: string, nesting: nat, rest: string)
    requires AllSpace(blank)
    ensures ParseObject(lib, "{" + (blank + ("}" + rest)), nesting) == Ok(Object(EntryValues(lib, [])), rest)
  {
    hide ParseMembers, SkipSpace;
    SkipToBracket(blank, '}', rest);
    var s := "{" + (blank + ("}" + rest));
    assert s[1..] == blank + ("}" + rest) && ("}" + rest)[1..] == rest;
  }

  /** The text behind the key of the first entry, and behind its value. */
  function AfterKey(es: seq<Entry>, close: string): string
    requires es != []
  {
    es[0].mid + (":" + (es[0].gap + (Text(es[0].doc) + AfterEntry(es, close))))
  }

  function AfterEntry(es: seq<Entry>, close: string): string
    requires es != []
  {
    es[0].after + (Comma(|es| > 1) + (EntriesText(es[1..]) + close))
  }

  lemma EntriesStart(es: seq<Entry>, close: string)
    requires es != [] && ValidKey(es[0])
    ensures SkipSpace(EntriesText(es) + close) == Literal(es[0].key) + AfterKey(es, close)
    ensures Peek(SkipSpace(EntriesText(es) + close)) == '\"'
  {
    hide Text, SkipSpace, Literal;
    var body := Literal(es[0].key) + AfterKey(es, close);
    EntriesRegroup(es, close);
    LiteralStarts(es[0].key);
    SkipSpacePrefix(es[0].before, body);
    NothingToSkip(body);
  }

  lemma EntriesRegroup(es: seq<Entry>, close: string)
    requires es != []
    ensures EntriesText(es) + close == es[0].before + (Literal(es[0].key) + AfterKey(es, close))
  {
    hide Text, Literal, Comma;
    var e := es[0];
    Regroup9(e.before, Literal(e.key), e.mid, ":", e.gap, Text(e.doc), e.after, Comma(|es| > 1), EntriesText(es[1..]), close);
  }

  lemma Regroup9(a: string, b: string, c: string, d: string, e: string, f: string, g: string, h: string, i: string,
                 rest: string)
    ensures a + b + c + d + e + f + g + h + i + rest == a + (b + (c + (d + (e + (f + (g + (h + (i + rest))))))))
  {
    Regroup5(a, b, c, d, e, f + g + h + i + rest);
    Regroup5(f, g, h, i, "", rest);
    assert a + b + c + d + e + f + g + h + i + rest == a + b + c + d + e + (f + g + h + i + rest);
    assert f + g + h + i + "" == f + g + h + i && "" + rest == rest;
  }

  /** The key of an entry, its colon, and the blanks around it. */
  lemma ReadKey(e: Entry, after: string)
    requires ValidKey(e)
    ensures var k := ParseKey(Literal(e.key) + (e.mid + (":" + (e.gap + after))));
            k.Ok? && k.value == PiecesValue(e.key) && SkipSpace(k.rest) == SkipSpace(after)
  {
    hide Literal, JsonText.GetQuoted, SkipSpace, PiecesValue, ValidPieces;
    var q, t := Literal(e.key), e.mid + (":" + (e.gap + after));
    QuotedLiteral(e.key, t);
    assert (q + t)[|q|..] == t;
    SkipSpacePrefix(e.mid, ":" + (e.gap + after));
    NothingToSkip(":" + (e.gap + after));
    assert (":" + (e.gap + after))[1..] == e.gap + after;
    SkipSpacePrefix(e.gap, after);
  }

  /** The names to come are new, and differ from each other. */
  predicate NewNames(sofar: seq<Member>, ms: seq<Member>) {
    (forall i :: 0 <= i < |ms| ==> GetValue(sofar, ms[i].name).None?) && UniqueNames(ms)
  }

  lemma NamesStayNew(sofar: seq<Member>, ms: seq<Member>)
    requires ms != [] && NewNames(sofar, ms)
    ensures GetValue(sofar, ms[0].name).None? && NewNames(sofar + [ms[0]], ms[1..])
  {
  }

  lemma EntryValuesStep(lib: Numbers, es: seq<Entry>)
    requires es != [] && forall i :: 0 <= i < |es| ==> ValidKey(es[i])
    requires forall i :: 0 <= i < |es| ==> Valid(lib, es[i].doc)
    ensures ValidKey(es[0]) && AllSpace(es[0].after) && ValidPieces(es[0].key)
    ensures EntryValues(lib, es) ==
            [Member(PiecesValue(es[0].key), Value(lib, es[0].doc))] + EntryValues(lib, es[1..])
  {
    assert ValidKey(es[0]);
  }

  /** One turn of the loop over the members. */
  lemma ReadEntry(lib: Numbers, es: seq<Entry>, nesting: nat, sofar: seq<Member>, close: string)
    requires es != [] && ValidKey(es[0]) && Valid(lib, es[0].doc) && Peek(close) == '}'
    requires FitsNesting(Value(lib, es[0].doc), nesting) && GetValue(sofar, PiecesValue(es[0].key)).None?
    ensures var m := Member(PiecesValue(es[0].key), Value(lib, es[0].doc));
            ParseMembers(lib, SkipSpace(EntriesText(es) + close), nesting, sofar) ==
            if |es| > 1 then ParseMembers(lib, SkipSpace(EntriesText(es[1..]) + close), nesting, sofar + [m])
            else Ok(sofar + [m], close[1..])
    decreases es, 0, 0
  {
    hide ParseValue, ParseMembers, ParseKey, SkipSpace, Text, Delimited, AllSpace, FitsNesting, Valid, EntriesText,
         Literal, GetValue, PiecesValue, ValidKey, ValidPieces, Value, Lawful;
    var s, e, more := SkipSpace(EntriesText(es) + close), es[0], AfterEntry(es, close);
    KeyBlanks(e);
    var name, v := PiecesValue(e.key), Value(lib, e.doc);
    EntriesStart(es, close);
    NoElements();
    assert |es| == 1 ==> es[1..] == [];
    AfterValue(e.after, |es| > 1, EntriesText(es[1..]), close);
    ReadKey(e, Text(e.doc) + more);
    ParseValueSkips(lib, ParseKey(s).rest, Text(e.doc) + more, nesting);
    ReadDoc(lib, e.doc, nesting, more);
    if |es| > 1 {
      MembersMore(lib, s, nesting, sofar, name, v, more);
    } else {
      assert close == "}" + close[1..];
      MembersEnd(lib, s, nesting, sofar, name, v, more, close[1..]);
    }
  }

  lemma KeyBlanks(e: Entry)
    requires ValidKey(e)
    ensures AllSpace(e.after) && ValidPieces(e.key)
  {
  }

  lemma {:induction false} ReadEntries(lib: Numbers, es: seq<Entry>, nesting: nat, sofar: seq<Member>, rest: string)
    requires es != [] && forall i :: 0 <= i < |es| ==> ValidKey(es[i])
    requires forall i :: 0 <= i < |es| ==> Valid(lib, es[i].doc)
    requires forall i :: 0 <= i < |es| ==> FitsNesting(EntryValues(lib, es)[i].value, nesting)
    requires NewNames(sofar, EntryValues(lib, es))
    ensures ParseMembers(lib, SkipSpace(EntriesText(es) + ("}" + rest)), nesting, sofar) ==
            Ok(sofar + EntryValues(lib, es), rest)
    decreases es, 1, 0
  {
    hide ParseMembers, SkipSpace, Text, FitsNesting, Valid, EntriesText, NewNames, GetValue, PiecesValue, ValidKey,
         EntryValues, Value, ValidPieces, Lawful, UniqueNames;
    var ms, tail := EntryValues(lib, es), es[1..];
    EntryValuesStep(lib, es);
    NamesStayNew(sofar, ms);
    ReadEntry(lib, es, nesting, sofar, "}" + rest);
    if tail == [] {
      assert EntryValues(lib, tail) == [];
      assert ("}" + rest)[1..] == rest && sofar + ms == sofar + [ms[0]];
    } else {
      assert ms[1..] == EntryValues(lib, tail);
      ReadEntries(lib, tail, nesting, sofar + [ms[0]], rest);
      assert sofar + [ms[0]] + EntryValues(lib, tail) == sofar + ms;
    }
  }

  // ----- whatever is read is a document ---------------------------------------

  /** A minus sign of which `strtod` uses nothing: parson takes the zero. */
  predicate LoneMinus(lib: Numbers, s: string) {
    var n := lib.strtod(SkipSpace(s));
    StartsNumber(Peek(SkipSpace(s))) && n.Scanned? && n.consumed == 0
  }

  lemma {:induction false} Blanks(s: string) returns (ws: string)
    ensures AllSpace(ws) && s == ws + SkipSpace(s)
  {
    if s != "" && IsSpace(s[0]) {
      var tail := Blanks(s[1..]);
      ws := [s[0]] + tail;
    } else {
      ws := "";
    }
  }

  /** The text between the cursor's places before and behind a value is a document of that
    value, behind blanks. */
  lemma {:induction false} DocOf(lib: Numbers, s: string, nesting: nat) returns (ws: string, d: Doc)
    requires ParseValue(lib, s, nesting).Ok? && !LoneMinus(lib, s)
    ensures AllSpace(ws) && Valid(lib, d) && Value(lib, d) == ParseValue(lib, s, nesting).value
    ensures s == ws + (Text(d) + ParseValue(lib, s, nesting).rest)
    ensures Ends(lib, d, ParseValue(lib, s, nesting).rest)
    decreases |s|, 1
  {
    hide ParseArray, ParseObject, ParseString, ParseBoolean, ParseNumber, ParseNull, SkipSpace, Lawful, Valid, Value, Text,
         AllSpace;
    var t := SkipSpace(s);
    ws := Blanks(s);
    if Peek(t) == '{' {
      d := ObjectOf(lib, t, nesting + 1);
    } else if Peek(t) == '[' {
      d := ArrayOf(lib, t, nesting + 1);
    } else {
      if StartsNumber(Peek(t)) {
        NumberUses(lib, t);
      }
      d := ScalarOf(lib, t, ParseValue(lib, s, nesting));
    }
  }

  lemma NumberUses(lib: Numbers, t: string)
    requires StartsNumber(Peek(t)) && ParseNumber(lib, t).Ok?
    ensures lib.strtod(t).Scanned?
    ensures lib.strtod(t).consumed > 0 ==> |ParseNumber(lib, t).rest| < |t|
  {
  }

  lemma ScalarOf(lib: Numbers, t: string, r: Parsed<Json>) returns (d: Doc)
    requires r.Ok? && match Peek(t)
                      case '\"' => r == ParseString(t)
                      case 't' => r == ParseBoolean(t)
                      case 'f' => r == ParseBoolean(t)
                      case 'n' => r == ParseNull(t)
                      case c => StartsNumber(c) && r == ParseNumber(lib, t) && |r.rest| < |t|
    ensures Valid(lib, d) && Value(lib, d) == r.value && t == Text(d) + r.rest && Ends(lib, d, r.rest)
  {
    hide ParseNumber, JsonText.GetQuoted, Numeral, Lawful, PiecesText, PiecesValue, ValidPieces, UsesJust, Delimited;
    if Peek(t) == '\"' {
      var ps := LiteralOf(t);
      d := StringDoc(ps);
    } else if Peek(t) == 't' || Peek(t) == 'f' {
      d := BooleanDoc(StartsWith(t, "true"));
    } else if Peek(t) == 'n' {
      d := NullDoc;
    } else {
      var numeral := NumeralOf(lib, t);
      d := NumberDoc(numeral, r.value.n);
    }
  }

  lemma ArrayOf(lib: Numbers, t: string, nesting: nat) returns (d: Doc)
    requires ParseArray(lib, t, nesting).Ok?
    ensures Valid(lib, d) && d.ArrayDoc? && Value(lib, d) == ParseArray(lib, t, nesting).value
    ensures t == Text(d) + ParseArray(lib, t, nesting).rest
    decreases |t|, 0
  {
    hide ParseItems, SkipSpace, ElementsText, Lawful, AllSpace;
    var inner := t[1..];
    if Peek(SkipSpace(inner)) == ']' {
      var blank := Blanks(inner);
      d := ArrayDoc(blank, []);
      assert SkipSpace(inner) == "]" + SkipSpace(inner)[1..];
    } else {
      var es := ItemsOf(lib, inner, nesting, []);
      d := ArrayDoc("", es);
      assert AllSpace("") by { NoBlanks(); }
      assert [] + ElementValues(lib, es) == ElementValues(lib, es);
    }
  }

  /** Behind a lone minus sign the cursor still stands on it. */
  lemma LoneMinusLeft(lib: Numbers, s: string, nesting: nat)
    requires ParseValue(lib, s, nesting).Ok?
    ensures LoneMinus(lib, s) ==> StartsNumber(Peek(SkipSpace(ParseValue(lib, s, nesting).rest)))
  {
    hide ParseObject, ParseArray, SkipSpace, Lawful;
    if LoneMinus(lib, s) {
      assert ParseValue(lib, s, nesting).rest == SkipSpace(s);
      SkipTwice(s);
    }
  }

  lemma SkipTwice(s: string)
    ensures SkipSpace(SkipSpace(s)) == SkipSpace(s)
  {
    NothingToSkip(SkipSpace(s));
  }

  lemma NoBlanks()
    ensures AllSpace("")
  {
  }

  lemma {:induction false} ItemsOf(lib: Numbers, s: string, nesting: nat, sofar: seq<Json>) returns (es: seq<Element>)
    requires ParseItems(lib, SkipSpace(s), nesting, sofar).Ok?
    ensures es != [] && forall i :: 0 <= i < |es| ==> AllSpace(es[i].before) && AllSpace(es[i].after)
    ensures forall i :: 0 <= i < |es| ==> Valid(lib, es[i].doc)
    ensures var r := ParseItems(lib, SkipSpace(s), nesting, sofar);
            r.value == sofar + ElementValues(lib, es) && s == ElementsText(es) + ("]" + r.rest)
    decreases |s|, 2
  {
    hide ParseValue, SkipSpace, Lawful, AllSpace, Valid, Value, Text, LoneMinus, ElementsText, ElementValues;
    var r := ParseItems(lib, SkipSpace(s), nesting, sofar);
    SkipTwice(s);
    ParseValueSkips(lib, s, SkipSpace(s), nesting);
    var v := ParseValue(lib, s, nesting);
    LoneMinusLeft(lib, s, nesting);
    var before, d := DocOf(lib, s, nesting);
    var after := Blanks(v.rest);
    var t := SkipSpace(v.rest);
    var tail: seq<Element> := [];
    if Peek(t) == ',' {
      tail := ItemsOf(lib, t[1..], nesting, sofar + [v.value]);
      assert t == "," + (ElementsText(tail) + ("]" + r.rest));
      assert sofar + [v.value] + ElementValues(lib, tail) == sofar + ([v.value] + ElementValues(lib, tail));
    } else {
      NoElementValues(lib);
      assert t == "" + ("" + ("]" + r.rest));
      assert sofar + [v.value] == sofar + ([v.value] + []);
    }
    es := [Element(before, d, after)] + tail;
    ElementsJoin(lib, Element(before, d, after), tail, "]" + r.rest);
  }

  lemma NoElementValues(lib: Numbers)
    ensures ElementsText([]) == "" && ElementValues(lib, []) == []
  {
  }

  lemma ElementsJoin(lib: Numbers, e: Element, tail: seq<Element>, close: string)
    requires AllSpace(e.before) && AllSpace(e.after) && Valid(lib, e.doc)
    requires forall i :: 0 <= i < |tail| ==> AllSpace(tail[i].before) && AllSpace(tail[i].after)
    requires forall i :: 0 <= i < |tail| ==> Valid(lib, tail[i].doc)
    ensures var es := [e] + tail;
            && (forall i :: 0 <= i < |es| ==> AllSpace(es[i].before) && AllSpace(es[i].after))
            && (forall i :: 0 <= i < |es| ==> Valid(lib, es[i].doc))
            && ElementValues(lib, es) == [Value(lib, e.doc)] + ElementValues(lib, tail)
            && ElementsText(es) + close ==
               e.before + (Text(e.doc) + (e.after + (Comma(tail != []) + (ElementsText(tail) + close))))
  {
    hide Valid, Text, Value, ElementsText, Lawful, AllSpace;
    var es := [e] + tail;
    assert es[0] == e && es[1..] == tail;
    ElementsRegroup(es, close);
  }

  // ----- objects --------------------------------------------------------------

  lemma ObjectOf(lib: Numbers, t: string, nesting: nat) returns (d: Doc)
    requires ParseObject(lib, t, nesting).Ok?
    ensures Valid(lib, d) && d.ObjectDoc? && Value(lib, d) == ParseObject(lib, t, nesting).value
    ensures t == Text(d) + ParseObject(lib, t, nesting).rest
    decreases |t|, 0
  {
    hide ParseMembers, SkipSpace, EntriesText, Lawful, AllSpace, ValidKey, PiecesValue, NewNames;
    var inner := t[1..];
    if Peek(SkipSpace(inner)) == '}' {
      var blank := Blanks(inner);
      d := ObjectDoc(blank, []);
      assert SkipSpace(inner) == "}" + SkipSpace(inner)[1..];
    } else {
      var es := MembersOf(lib, inner, nesting, []);
      d := ObjectDoc("", es);
      assert AllSpace("") by { NoBlanks(); }
      assert [] + EntryValues(lib, es) == EntryValues(lib, es);
      DistinctKeys(lib, es);
    }
  }

  lemma DistinctKeys(lib: Numbers, es: seq<Entry>)
    requires forall i :: 0 <= i < |es| ==> ValidKey(es[i])
    requires forall i :: 0 <= i < |es| ==> Valid(lib, es[i].doc)
    requires NewNames([], EntryValues(lib, es))
    ensures forall i, j :: 0 <= i < j < |es| ==>
              ValidKey(es[i]) && ValidKey(es[j]) && PiecesValue(es[i].key) != PiecesValue(es[j].key)
  {
    hide PiecesValue, EntryValues, Valid, Lawful;
    forall i, j | 0 <= i < j < |es|
      ensures ValidKey(es[i]) && ValidKey(es[j]) && PiecesValue(es[i].key) != PiecesValue(es[j].key)
    {
      EntryAt(lib, es, i);
      EntryAt(lib, es, j);
    }
  }

  /** The key at the cursor, its colon, and the blanks before it. */
  lemma KeyOf(s: string) returns (key: seq<Piece>, mid: string)
    requires ParseKey(s).Ok?
    ensures ValidPieces(key) && PiecesValue(key) == ParseKey(s).value && NulFree(ParseKey(s).value)
    ensures AllSpace(mid) && s == Literal(key) + (mid + (":" + ParseKey(s).rest))
  {
    hide JsonText.GetQuoted, Literal, SkipSpace, PiecesValue, ValidPieces, AllSpace;
    key := LiteralOf(s);
    var u := s[|Literal(key)|..];
    mid := Blanks(u);
    var t := SkipSpace(u);
    assert t == ":" + t[1..];
    assert s == Literal(key) + u;
  }

  lemma NamesNew(sofar: seq<Member>, m: Member, ms: seq<Member>)
    requires NewNames(sofar + [m], ms) && GetValue(sofar, m.name).None?
    ensures NewNames(sofar, [m] + ms)
  {
    forall i | 0 <= i < |ms|
      ensures GetValue(sofar, ms[i].name).None? && ms[i].name != m.name
    {
      assert (sofar + [m])[|sofar|] == m;
      assert forall k :: 0 <= k < |sofar| ==> (sofar + [m])[k] == sofar[k];
    }
  }

  lemma {:induction false} MembersOf(lib: Numbers, s: string, nesting: nat, sofar: seq<Member>) returns (es: seq<Entry>)
    requires ParseMembers(lib, SkipSpace(s), nesting, sofar).Ok?
    ensures es != [] && forall i :: 0 <= i < |es| ==> ValidKey(es[i])
    ensures forall i :: 0 <= i < |es| ==> Valid(lib, es[i].doc)
    ensures NewNames(sofar, EntryValues(lib, es))
    ensures var r := ParseMembers(lib, SkipSpace(s), nesting, sofar);
            r.value == sofar + EntryValues(lib, es) && s == EntriesText(es) + ("}" + r.rest)
    decreases |s|, 2
  {
    hide ParseValue, ParseKey, SkipSpace, Lawful, AllSpace, Valid, Value, Text, LoneMinus, NewNames, Literal, PiecesValue,
         ValidPieces, NulFree, GetValue, EntriesText, EntryValues;
    var r := ParseMembers(lib, SkipSpace(s), nesting, sofar);
    var before := Blanks(s);
    var k := ParseKey(SkipSpace(s));
    var key, mid := KeyOf(SkipSpace(s));
    var v := ParseValue(lib, k.rest, nesting);
    LoneMinusLeft(lib, k.rest, nesting);
    var gap, d := DocOf(lib, k.rest, nesting);
    var after := Blanks(v.rest);
    var t := SkipSpace(v.rest);
    var e := Entry(before, key, mid, gap, d, after);
    var m := Member(k.value, v.value);
    var tail: seq<Entry> := [];
    if Peek(t) == ',' {
      tail := MembersOf(lib, t[1..], nesting, sofar + [m]);
      assert t == "," + (EntriesText(tail) + ("}" + r.rest));
      NamesNew(sofar, m, EntryValues(lib, tail));
    } else {
      OnlyName(sofar, m);
      NoEntries(lib);
      assert t == "" + ("" + ("}" + r.rest));
    }
    es := [e] + tail;
    EntriesJoin(lib, e, tail, "}" + r.rest);
  }

  lemma EntriesJoin(lib: Numbers, e: Entry, tail: seq<Entry>, close: string)
    requires ValidKey(e) && Valid(lib, e.doc) && forall i :: 0 <= i < |tail| ==> ValidKey(tail[i])
    requires forall i :: 0 <= i < |tail| ==> Valid(lib, tail[i].doc)
    ensures var es := [e] + tail;
            && (forall i :: 0 <= i < |es| ==> ValidKey(es[i]))
            && (forall i :: 0 <= i < |es| ==> Valid(lib, es[i].doc))
            && EntryValues(lib, es) == [Member(PiecesValue(e.key), Value(lib, e.doc))] + EntryValues(lib, tail)
            && EntriesText(es) + close ==
               e.before + (Literal(e.key) + (e.mid + (":" + (e.gap + (Text(e.doc) + (e.after
               + (Comma(tail != []) + (EntriesText(tail) + close))))))))
  {
    hide ValidKey, Valid, Text, Value, EntriesText, Literal, Lawful;
    var es := [e] + tail;
    assert es[0] == e && es[1..] == tail;
    EntriesRegroup(es, close);
  }

  lemma NoEntries(lib: Numbers)
    ensures EntriesText([]) == "" && EntryValues(lib, []) == []
  {
  }

  lemma OnlyName(sofar: seq<Member>, m: Member)
    requires GetValue(sofar, m.name).None?
    ensures NewNames(sofar, [m] + [])
  {
    assert [m] + [] == [m];
  }
}
