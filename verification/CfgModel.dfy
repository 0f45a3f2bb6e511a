/** What the configuration file functions compute: a two-level store, its text, and
  how the text is read back line by line. */
module CfgModel {
  import opened CString
  import opened Wrappers

  datatype Item = Item(keyword: string, desc: Option<string>, value: string)

  datatype Section = Section(name: string, items: seq<Item>)

  const LINE_SIZE: nat := 1022
  const KEYWORD_SIZE: nat := 64
  const NAME_SIZE: nat := 64

  // ----- lookup -------------------------------------------------------------

  /** The place of the first element under a name. */
  function Place<T>(xs: seq<T>, nameOf: T -> string, name: string): (i: Option<nat>)
    ensures i.Some? ==> i.value < |xs| && nameOf(xs[i.value]) == name
    ensures i.Some? ==> forall k :: 0 <= k < i.value ==> nameOf(xs[k]) != name
    ensures i.None? ==> forall k :: 0 <= k < |xs| ==> nameOf(xs[k]) != name
  {
    if xs == [] then None
    else if nameOf(xs[0]) == name then Some(0)
    else
      match Place(xs[1..], nameOf, name)
      case None => None
      case Some(i) => Some(i + 1)
  }

  function FindSection(sections: seq<Section>, name: string): (i: Option<nat>)
    ensures i.Some? ==> i.value < |sections| && sections[i.value].name == name
    ensures i.Some? ==> forall k :: 0 <= k < i.value ==> sections[k].name != name
    ensures i.None? ==> forall k :: 0 <= k < |sections| ==> sections[k].name != name
  {
    Place(sections, (s: Section) => s.name, name)
  }

  function FindItem(items: seq<Item>, keyword: string): (i: Option<nat>)
    ensures i.Some? ==> i.value < |items| && items[i.value].keyword == keyword
    ensures i.Some? ==> forall k :: 0 <= k < i.value ==> items[k].keyword != keyword
    ensures i.None? ==> forall k :: 0 <= k < |items| ==> items[k].keyword != keyword
  {
    Place(items, (i: Item) => i.keyword, keyword)
  }

  // ----- get and set ----------------------------------------------------------

  /** `cfg_get_item`: names and keywords are looked up in upper case. */
  function GetItem(sections: seq<Section>, name: string, keyword: string): Option<string> {
    match FindSection(sections, Upper(name))
    case None => None
    case Some(i) => ItemValue(sections[i].items, Upper(keyword))
  }

  function ItemValue(items: seq<Item>, keyword: string): Option<string> {
    match FindItem(items, keyword)
    case None => None
    case Some(i) => Some(items[i].value)
  }

  /** A known keyword keeps its place, and its comment unless one is given. */
  function Replaced(items: seq<Item>, item: Item): seq<Item> {
    match FindItem(items, item.keyword)
    case None => items + [item]
    case Some(i) => items[i := if item.desc.Some? then item else item.(desc := items[i].desc)]
  }

  /** `cfg_set_item` */
  function SetItem(sections: seq<Section>, name: string, item: Item): seq<Section> {
    var keyed := item.(keyword := Upper(item.keyword));
    match FindSection(sections, Upper(name))
    case None => sections + [Section(Upper(name), [keyed])]
    case Some(i) => sections[i := sections[i].(items := Replaced(sections[i].items, keyed))]
  }

  lemma FoundAt(items: seq<Item>, keyword: string, i: nat)
    requires i < |items| && items[i].keyword == keyword && forall k :: 0 <= k < i ==> items[k].keyword != keyword
    ensures FindItem(items, keyword) == Some(i)
  {
  }

  lemma SectionAt(sections: seq<Section>, name: string, i: nat)
    requires i < |sections| && sections[i].name == name && forall k :: 0 <= k < i ==> sections[k].name != name
    ensures FindSection(sections, name) == Some(i)
  {
  }

  lemma ReplacedLookup(items: seq<Item>, item: Item, keyword: string)
    ensures ItemValue(Replaced(items, item), keyword) ==
            if keyword == item.keyword then Some(item.value) else ItemValue(items, keyword)
  {
    var after := Replaced(items, item);
    if keyword == item.keyword {
      FoundAt(after, keyword, match FindItem(items, keyword) case None => |items| case Some(i) => i);
    } else {
      match FindItem(items, keyword)
      case Some(i) => FoundAt(after, keyword, i);
      case None =>
    }
  }

  /** What was set is got, under any spelling; every other setting is as before. */
  lemma SetThenGet(sections: seq<Section>, name: string, item: Item, name': string, keyword: string)
    ensures GetItem(SetItem(sections, name, item), name', keyword) ==
            if Upper(name') == Upper(name) && Upper(keyword) == Upper(item.keyword) then Some(item.value)
            else GetItem(sections, name', keyword)
  {
    hide FindItem, Replaced, ItemValue;
    var keyed := item.(keyword := Upper(item.keyword));
    var after := SetItem(sections, name, item);
    match FindSection(sections, Upper(name))
    case None =>
      match FindSection(sections, Upper(name')) {
        case Some(i) => SectionAt(after, Upper(name'), i);
        case None =>
          if Upper(name') == Upper(name) {
            SectionAt(after, Upper(name), |sections|);
            NewItemLookup(keyed, Upper(keyword));
          }
      }
    case Some(i) =>
      ReplacedLookup(sections[i].items, keyed, Upper(keyword));
      match FindSection(sections, Upper(name')) {
        case Some(j) => SectionAt(after, Upper(name'), j);
        case None =>
      }
  }

  lemma NewItemLookup(item: Item, keyword: string)
    ensures ItemValue([item], keyword) == if keyword == item.keyword then Some(item.value) else None
  {
    assert [item][1..] == [];
  }

  // ----- the text of a store ------------------------------------------------

  function DescText(desc: Option<string>): string {
    match desc
    case None => ""
    case Some(d) => (if Peek(d) != ';' then ";" else "") + d + "\n"
  }

  function ItemLine(item: Item): string {
    item.keyword + "=" + item.value
  }

  function ItemText(item: Item): string {
    DescText(item.desc) + (ItemLine(item) + "\n")
  }

  function ItemsText(items: seq<Item>): string {
    if items == [] then "" else ItemText(items[0]) + ItemsText(items[1..])
  }

  function SectionText(section: Section): string {
    ("[" + section.name + "]\n") + (ItemsText(section.items) + "\n")
  }

  function StoreText(sections: seq<Section>): string {
    if sections == [] then "" else SectionText(sections[0]) + StoreText(sections[1..])
  }

  // ----- reading a line -----------------------------------------------------

  predicate IsAscii(c: char) {
    c as int < 128
  }

  function TrimEnd(s: string): (r: string)
    ensures r <= s
    ensures r == [] || !IsSpace(r[|r| - 1])
  {
    if s == [] || !IsSpace(s[|s| - 1]) then s else TrimEnd(s[..|s| - 1])
  }

  /** The characters `_readline` stores, the rest of the file, and whether the end of
    the file was met. */
  datatype Scanned = Scanned(raw: string, rest: string, eof: bool)

  function Scan(text: string, raw: string, room: nat): (r: Scanned)
    requires |raw| <= room && 0 < room
    ensures |r.raw| <= room && raw <= r.raw
    ensures |r.rest| <= |text| && (!r.eof ==> |r.rest| < |text|)
    decreases |text|
  {
    if text == [] then Scanned(raw, [], true)
    else
      var c, rest := text[0], text[1..];
      if !IsAscii(c) then Scan(rest, raw, room)
      else if c == NEWLINE then Scanned(raw, rest, false)
      else if raw == [] then Scan(rest, if IsSpace(c) then [] else [c], room)
      else if |raw| < room then Scan(rest, raw + [c], room)
      else Scanned(raw, rest, false)
  }

  /** The line buffer afterwards: the stored characters over the old content, ended
    behind the last one that is not a space. */
  function Filled(buffer: string, raw: string): (b: string)
    requires |raw| < |buffer|
    ensures |b| == |buffer|
  {
    (raw + buffer[|raw|..])[|TrimEnd(raw)| := NUL]
  }

  // ----- what a line does ---------------------------------------------------

  /** Reading so far: the store, the section that is open, the pending comment. */
  datatype Reader = Reader(sections: seq<Section>, current: Option<nat>, desc: string)

  predicate ValidReader(r: Reader) {
    r.current.Some? ==> r.current.value < |r.sections|
  }

  function IndexOf(s: string, c: char): (i: nat)
    ensures i <= |s| && (i < |s| ==> s[i] == c)
    ensures forall k :: 0 <= k < i ==> s[k] != c
  {
    if s == [] || s[0] == c then 0 else 1 + IndexOf(s[1..], c)
  }

  function SkipJunk(s: string): (r: string) {
    if s != [] && (IsSpace(s[0]) || 0 < s[0] as int < 32) then SkipJunk(s[1..]) else s
  }

  /** `trim` */
  function Trim(s: string): string {
    TrimEnd(SkipJunk(s))
  }

  function Min(a: nat, b: nat): nat {
    if a <= b then a else b
  }

  predicate IsHeader(line: string) {
    Peek(line) == '[' && IndexOf(line, ']') < |line|
  }

  function HeaderName(line: string): (name: string)
    requires IsHeader(line)
    ensures |name| < NAME_SIZE
  {
    Upper(line[1..Min(IndexOf(line, ']'), NAME_SIZE)])
  }

  /** Where the keyword of an item line ends. */
  function KeywordEnd(line: string): (n: nat)
    ensures n <= |line| && n < KEYWORD_SIZE
  {
    Min(IndexOf(line, '='), KEYWORD_SIZE - 1)
  }

  /** A keyword met before is deleted; the item goes to the end. */
  function Appended(items: seq<Item>, item: Item): seq<Item> {
    match FindItem(items, item.keyword)
    case None => items + [item]
    case Some(i) => items[..i] + items[i + 1..] + [item]
  }

  function OpenSection(r: Reader, name: string): (r': Reader)
    ensures ValidReader(r')
  {
    match FindSection(r.sections, name)
    case Some(i) => Reader(r.sections, Some(i), "")
    case None => Reader(r.sections + [Section(name, [])], Some(|r.sections|), "")
  }

  /** The value starts one behind the keyword's end, in the buffer: without an `=`,
    that is behind the line's own end. */
  function ItemOf(line: string, buffer: string, desc: string): Item
    requires |line| < |buffer|
  {
    var n := KeywordEnd(line);
    Item(Trim(Upper(line[..n])), if desc == "" then None else Some(desc), CStr(buffer[n + 1..]))
  }

  function AddItem(r: Reader, item: Item): (r': Reader)
    requires ValidReader(r) && r.current.Some?
    ensures ValidReader(r')
  {
    var i := r.current.value;
    var section := r.sections[i];
    Reader(r.sections[i := section.(items := Appended(section.items, item))], r.current, "")
  }

  predicate Terminated(buffer: string) {
    |CStr(buffer)| < |buffer|
  }

  function TakeLine(r: Reader, buffer: string): (r': Reader)
    requires ValidReader(r) && Terminated(buffer)
    ensures ValidReader(r')
  {
    var line := CStr(buffer);
    if line == "" then r.(current := None)
    else if IsHeader(line) then OpenSection(r, HeaderName(line))
    else if r.current.None? then r
    else if line[0] == ';' || line[0] == '#' then r.(desc := line)
    else AddItem(r, ItemOf(line, buffer, r.desc))
  }

  lemma CStrStops(s: string, k: nat)
    requires k < |s| && s[k] == NUL
    ensures |CStr(s)| <= k
  {
  }

  lemma FilledTerminated(buffer: string, raw: string)
    requires |raw| < |buffer|
    ensures Terminated(Filled(buffer, raw))
  {
    CStrStops(Filled(buffer, raw), |TrimEnd(raw)|);
  }

  /** `cfg_read` from some point of the file on. */
  function ReadFrom(text: string, eof: bool, buffer: string, r: Reader): seq<Section>
    requires |buffer| == LINE_SIZE && ValidReader(r)
    decreases |text|, if eof then 0 else 1
  {
    if eof then r.sections
    else
      var s := Scan(text, "", LINE_SIZE - 1);
      var filled := Filled(buffer, s.raw);
      FilledTerminated(buffer, s.raw);
      ReadFrom(s.rest, s.eof, filled, TakeLine(r, filled))
  }

  /** `cfg_read`, with whatever the line buffer holds at first. */
  function ReadText(text: string, buffer: string): seq<Section>
    requires |buffer| == LINE_SIZE
  {
    ReadFrom(text, false, buffer, Reader([], None, ""))
  }
}
