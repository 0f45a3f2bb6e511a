/** JSON texts after sections 2 to 7 of RFC 8259, as trees that keep every choice a writer
  has: blanks, escapes, numerals. `Text` is what is written, `Value` what it means; neither
  knows the parser. Blanks are those of `isspace`, numerals those of `strtod`. */
module JsonGrammar {
  import opened CString
  import opened Libc
  import opened JsonValue
  import Utf8

  // ----- string literals ------------------------------------------------------

  /** One character of a literal: itself, a two-character escape, one hexadecimal escape, or
    a surrogate pair of two. */
  datatype Piece =
    | Plain(c: char)
    | Short(c: char)
    | Unicode(hex: string, unit: nat)
    | Pair(lead: string, high: nat, trail: string, low: nat)

  const SHORT := map[
    '\"' := 0x22 as char, '\\' := 0x5C as char, '/' := 0x2F as char, 'b' := 0x08 as char,
    'f' := 0x0C as char, 'n' := 0x0A as char, 'r' := 0x0D as char, 't' := 0x09 as char]

  const LOWER := "0123456789abcdef"
  const UPPER := "0123456789ABCDEF"

  predicate IsHexDigit(c: char, d: nat) {
    d < 16 && (c == LOWER[d] || c == UPPER[d])
  }

  /** Four hexadecimal digits, in either case. */
  predicate Denotes(hex: string, n: nat) {
    && |hex| == 4 && n < 0x1_0000
    && IsHexDigit(hex[0], n / 4096) && IsHexDigit(hex[1], n / 256 % 16)
    && IsHexDigit(hex[2], n / 16 % 16) && IsHexDigit(hex[3], n % 16)
  }

  predicate ValidPiece(p: Piece) {
    match p
    case Plain(c) => c as int >= 0x20 && c != '\"' && c != '\\'
    case Short(c) => c in SHORT
    case Unicode(hex, unit) => Denotes(hex, unit) && !(0xD800 <= unit <= 0xDFFF)
    case Pair(lead, high, trail, low) =>
      Denotes(lead, high) && Denotes(trail, low) && 0xD800 <= high <= 0xDBFF && 0xDC00 <= low <= 0xDFFF
  }

  function PieceText(p: Piece): (s: string)
    ensures s != []
  {
    match p
    case Plain(c) => [c]
    case Short(c) => ['\\', c]
    case Unicode(hex, _) => "\\u" + hex
    case Pair(lead, _, trail, _) => "\\u" + lead + "\\u" + trail
  }

  /** The octets a piece stands for. */
  function PieceValue(p: Piece): (s: string)
    requires ValidPiece(p)
    ensures s != []
  {
    match p
    case Plain(c) => [c]
    case Short(c) => [SHORT[c]]
    case Unicode(_, unit) => Utf8.Encode(unit)
    case Pair(_, high, _, low) => Utf8.Encode(0x1_0000 + (high - 0xD800) * 0x400 + (low - 0xDC00))
  }

  predicate ValidPieces(ps: seq<Piece>) {
    forall i :: 0 <= i < |ps| ==> ValidPiece(ps[i])
  }

  function PiecesText(ps: seq<Piece>): string {
    if ps == [] then "" else PieceText(ps[0]) + PiecesText(ps[1..])
  }

  function PiecesValue(ps: seq<Piece>): string
    requires ValidPieces(ps)
  {
    if ps == [] then "" else PieceValue(ps[0]) + PiecesValue(ps[1..])
  }

  function Literal(ps: seq<Piece>): string {
    "\"" + PiecesText(ps) + "\""
  }

  // ----- numerals -------------------------------------------------------------

  /** A numeral without superfluous zeros in front, of that value. */
  predicate Numeral(lib: Numbers, t: string, n: real) {
    StartsNumber(Peek(t)) && Decimals(t) && !LeadingZero(t) && lib.strtod(t) == Scanned(n, |t|)
  }

  // ----- documents ------------------------------------------------------------

  datatype Doc =
    | NullDoc
    | BooleanDoc(b: bool)
    | NumberDoc(numeral: string, n: real)
    | StringDoc(pieces: seq<Piece>)
    | ArrayDoc(blank: string, elements: seq<Element>)
    | ObjectDoc(blank: string, entries: seq<Entry>)

  /** A value between blanks. */
  datatype Element = Element(before: string, doc: Doc, after: string)

  /** A key, a colon and a value, with blanks around each. */
  datatype Entry = Entry(before: string, key: seq<Piece>, mid: string, gap: string, doc: Doc, after: string)

  function Text(d: Doc): string {
    match d
    case NullDoc => "null"
    case BooleanDoc(b) => if b then "true" else "false"
    case NumberDoc(t, _) => t
    case StringDoc(ps) => Literal(ps)
    case ArrayDoc(blank, es) => "[" + (if es == [] then blank else ElementsText(es)) + "]"
    case ObjectDoc(blank, es) => "{" + (if es == [] then blank else EntriesText(es)) + "}"
  }

  function Comma(more: bool): string {
    if more then "," else ""
  }

  function ElementsText(es: seq<Element>): string {
    if es == [] then ""
    else es[0].before + Text(es[0].doc) + es[0].after + Comma(|es| > 1) + ElementsText(es[1..])
  }

  function EntriesText(es: seq<Entry>): string {
    if es == [] then ""
    else
      var e := es[0];
      e.before + Literal(e.key) + e.mid + ":" + e.gap + Text(e.doc) + e.after + Comma(|es| > 1) + EntriesText(es[1..])
  }

  /** Keys are C strings, and no two of one object are the same. */
  predicate Valid(lib: Numbers, d: Doc) {
    match d
    case NumberDoc(t, n) => Numeral(lib, t, n)
    case StringDoc(ps) => ValidPieces(ps)
    case ArrayDoc(blank, es) =>
      && AllSpace(blank)
      && (forall i :: 0 <= i < |es| ==> AllSpace(es[i].before) && AllSpace(es[i].after))
      && (forall i :: 0 <= i < |es| ==> Valid(lib, es[i].doc))
    case ObjectDoc(blank, es) =>
      && AllSpace(blank)
      && (forall i :: 0 <= i < |es| ==> ValidKey(es[i]))
      && (forall i :: 0 <= i < |es| ==> Valid(lib, es[i].doc))
      && (forall i, j :: 0 <= i < j < |es| ==> PiecesValue(es[i].key) != PiecesValue(es[j].key))
    case _ => true
  }

  predicate ValidKey(e: Entry) {
    && AllSpace(e.before) && AllSpace(e.mid) && AllSpace(e.gap) && AllSpace(e.after)
    && ValidPieces(e.key) && NulFree(PiecesValue(e.key))
  }

  function Value(lib: Numbers, d: Doc): Json
    requires Valid(lib, d)
  {
    match d
    case NullDoc => Null
    case BooleanDoc(b) => Boolean(b)
    case NumberDoc(_, n) => Number(n)
    case StringDoc(ps) => String(PiecesValue(ps))
    case ArrayDoc(_, es) => Array(ElementValues(lib, es))
    case ObjectDoc(_, es) => Object(EntryValues(lib, es))
  }

  function ElementValues(lib: Numbers, es: seq<Element>): (vs: seq<Json>)
    requires forall i :: 0 <= i < |es| ==> Valid(lib, es[i].doc)
    ensures |vs| == |es|
  {
    if es == [] then [] else [Value(lib, es[0].doc)] + ElementValues(lib, es[1..])
  }

  function EntryValues(lib: Numbers, es: seq<Entry>): (ms: seq<Member>)
    requires forall i :: 0 <= i < |es| ==> ValidKey(es[i])
    requires forall i :: 0 <= i < |es| ==> Valid(lib, es[i].doc)
    ensures |ms| == |es|
  {
    if es == [] then []
    else
      assert ValidKey(es[0]);
      [Member(PiecesValue(es[0].key), Value(lib, es[0].doc))] + EntryValues(lib, es[1..])
  }
}
