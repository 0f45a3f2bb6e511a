/** What becomes of comments: reading attaches a comment line to the item behind it, and
  setting an item keeps its comment unless a new one is given. */
module CfgComments {
  import opened CString
  import opened Wrappers
  import opened CfgModel
  import opened CfgRoundTrip
  import opened CfgLines

  // ----- setting --------------------------------------------------------------

  /** The item of a section and a keyword, under any spelling. */
  function ItemUnder(sections: seq<Section>, name: string, keyword: string): Option<Item> {
    match FindSection(sections, Upper(name))
    case None => None
    case Some(i) => ItemFound(sections[i].items, Upper(keyword))
  }

  function ItemFound(items: seq<Item>, keyword: string): Option<Item> {
    match FindItem(items, keyword)
    case None => None
    case Some(i) => Some(items[i])
  }

  function CommentOf(item: Option<Item>): Option<string> {
    match item
    case None => None
    case Some(i) => i.desc
  }

  lemma ReplacedItem(items: seq<Item>, item: Item, keyword: string)
    ensures ItemFound(Replaced(items, item), keyword) ==
            if keyword == item.keyword then
              Some(item.(desc := if item.desc.Some? then item.desc else CommentOf(ItemFound(items, keyword))))
            else ItemFound(items, keyword)
  {
    hide FindItem;
    var after := Replaced(items, item);
    if keyword == item.keyword {
      FoundAt(after, keyword, match FindItem(items, keyword) case None => |items| case Some(i) => i);
    } else {
      match FindItem(items, keyword)
      case Some(i) => FoundAt(after, keyword, i);
      case None => NotFound(after, keyword);
    }
  }

  lemma NotFound(items: seq<Item>, keyword: string)
    requires forall k :: 0 <= k < |items| ==> items[k].keyword != keyword
    ensures FindItem(items, keyword) == None
  {
  }

  /** What was set is there, with the comment given or else the one it had; every other item
    is as it was, comment included. */
  lemma SetThenItem(sections: seq<Section>, name: string, item: Item, name': string, keyword: string)
    ensures ItemUnder(SetItem(sections, name, item), name', keyword) ==
            if Upper(name') == Upper(name) && Upper(keyword) == Upper(item.keyword) then
              Some(Item(Upper(item.keyword),
                        if item.desc.Some? then item.desc else CommentOf(ItemUnder(sections, name, item.keyword)),
                        item.value))
            else ItemUnder(sections, name', keyword)
  {
    hide FindItem, Replaced, ItemFound;
    var keyed := item.(keyword := Upper(item.keyword));
    var after := SetItem(sections, name, item);
    match FindSection(sections, Upper(name))
    case None =>
      match FindSection(sections, Upper(name')) {
        case Some(i) => SectionAt(after, Upper(name'), i);
        case None =>
          if Upper(name') == Upper(name) {
            SectionAt(after, Upper(name), |sections|);
            AloneFound(keyed, Upper(keyword));
          }
      }
    case Some(i) =>
      ReplacedItem(sections[i].items, keyed, Upper(keyword));
      match FindSection(sections, Upper(name')) {
        case Some(j) => SectionAt(after, Upper(name'), j);
        case None =>
      }
  }

  lemma AloneFound(item: Item, keyword: string)
    ensures ItemFound([item], keyword) == if keyword == item.keyword then Some(item) else None
  {
    assert [item][1..] == [];
  }

  function Names(sections: seq<Section>): (names: seq<string>)
    ensures |names| == |sections|
  {
    seq(|sections|, i requires 0 <= i < |sections| => sections[i].name)
  }

  function Keywords(items: seq<Item>): (keywords: seq<string>)
    ensures |keywords| == |items|
  {
    seq(|items|, i requires 0 <= i < |items| => items[i].keyword)
  }

  /** Nothing changes its place: a new section stands last, and so does a new item in its
    section. */
  lemma SetKeepsPlaces(sections: seq<Section>, name: string, item: Item)
    ensures var after := SetItem(sections, name, item);
            && Names(after) == Names(sections) + (if Upper(name) in Names(sections) then [] else [Upper(name)])
            && forall i :: 0 <= i < |sections| ==>
                 Keywords(after[i].items) ==
                 Keywords(sections[i].items)
                 + if FindSection(sections, Upper(name)) == Some(i) && ItemUnder(sections, name, item.keyword).None?
                   then [Upper(item.keyword)] else []
  {
    hide FindItem;
    var after := SetItem(sections, name, item);
    match FindSection(sections, Upper(name))
    case None =>
      assert Upper(name) !in Names(sections);
    case Some(i) =>
      assert Names(sections)[i] == Upper(name);
  }

  // ----- reading --------------------------------------------------------------

  predicate CommentLine(l: string) {
    GoodLine(l) && (l[0] == ';' || l[0] == '#')
  }

  /** An item line with a value of its own. */
  predicate ItemLineOwn(l: string) {
    GoodLine(l) && IsItem(l) && KeywordEnd(l) < |l|
  }

  lemma TakeComment(r: Reader, l: string, buffer: string)
    requires CommentLine(l) && ValidReader(r) && r.current.Some? && |buffer| == LINE_SIZE
    ensures Terminated(Filled(buffer, l)) && TakeLine(r, Filled(buffer, l)) == r.(desc := l)
  {
    hide Filled;
    FilledLine(buffer, l);
  }

  lemma TakeOwnItem(r: Reader, l: string, buffer: string)
    requires ItemLineOwn(l) && ValidReader(r) && r.current.Some? && |buffer| == LINE_SIZE
    ensures Terminated(Filled(buffer, l))
    ensures TakeLine(r, Filled(buffer, l)) == AddItem(r, ItemRead(l, if r.desc == "" then None else Some(r.desc)))
  {
    hide Filled, AddItem, KeywordEnd, Trim, CStr, IsHeader, GoodLine;
    FilledLine(buffer, l);
    GoodLineParts(l);
    ValueInLine(l, Filled(buffer, l), KeywordEnd(l));
  }

  lemma GoodLineParts(l: string)
    requires GoodLine(l)
    ensures 0 < |l| < LINE_SIZE && NulFree(l)
  {
  }

  lemma AddedLast(r: Reader, item: Item)
    requires ValidReader(r) && r.current.Some?
    ensures var r' := AddItem(r, item);
            && ValidReader(r') && r'.current == r.current && r'.desc == ""
            && var items := r'.sections[r.current.value].items;
               items != [] && items[|items| - 1] == item
  {
  }

  lemma AddedNext(r: Reader, item: Item)
    requires ValidReader(r) && r.current.Some?
    requires var items := r.sections[r.current.value].items;
             items != [] && items[|items| - 1].keyword != item.keyword
    ensures var before := r.sections[r.current.value].items;
            var after := AddItem(r, item).sections[r.current.value].items;
            |after| >= 2 && after[|after| - 2] == before[|before| - 1]
  {
    hide FindItem;
  }

  /** In an open section, a comment line of either mark goes with the item line behind it,
    as its comment, and with no other: the next item has none. */
  lemma CommentAttached(c: string, l: string, l': string, rest: string, buffer: string, r: Reader)
    returns (after: string, r': Reader)
    requires CommentLine(c) && ItemLineOwn(l) && ItemLineOwn(l') && |buffer| == LINE_SIZE
    requires ValidReader(r) && r.current.Some?
    ensures |after| == LINE_SIZE && ValidReader(r') && r'.current == r.current
    ensures ReadFrom(c + "\n" + (l + "\n" + (l' + "\n" + rest)), false, buffer, r) == ReadFrom(rest, false, after, r')
    ensures var items := r'.sections[r.current.value].items;
            && items != [] && items[|items| - 1] == ItemRead(l', None)
            && (ItemRead(l, Some(c)).keyword != ItemRead(l', None).keyword ==>
                  |items| >= 2 && items[|items| - 2] == ItemRead(l, Some(c)))
  {
    hide ReadFrom, TakeLine, Filled, AddItem, ItemRead, KeywordEnd, IsItem;
    GoodLineParts(c);
    ReadLine(c, l + "\n" + (l' + "\n" + rest), buffer, r);
    TakeComment(r, c, buffer);
    var b1 := Filled(buffer, c);
    var r1 := r.(desc := c);
    ReadLine(l, l' + "\n" + rest, b1, r1);
    TakeOwnItem(r1, l, b1);
    AddedLast(r1, ItemRead(l, Some(c)));
    var b2 := Filled(b1, l);
    var r2 := AddItem(r1, ItemRead(l, Some(c)));
    ReadLine(l', rest, b2, r2);
    TakeOwnItem(r2, l', b2);
    AddedLast(r2, ItemRead(l', None));
    after, r' := Filled(b2, l'), AddItem(r2, ItemRead(l', None));
    if ItemRead(l, Some(c)).keyword != ItemRead(l', None).keyword {
      AddedNext(r2, ItemRead(l', None));
    }
  }

  /** A header drops a comment that no item took. */
  lemma HeaderDropsComment(c: string, name: string, rest: string, buffer: string, r: Reader) returns (after: string)
    requires CommentLine(c) && GoodName(name) && |buffer| == LINE_SIZE && ValidReader(r) && r.current.Some?
    ensures |after| == LINE_SIZE
    ensures ReadFrom(c + "\n" + ("[" + name + "]" + "\n" + rest), false, buffer, r) ==
            ReadFrom("[" + name + "]" + "\n" + rest, false, after, r.(desc := ""))
  {
    hide ReadFrom, TakeLine, Filled;
    var h := "[" + name + "]";
    HeaderLine(name);
    ReadLine(c, h + "\n" + rest, buffer, r);
    TakeComment(r, c, buffer);
    after := Filled(buffer, c);
    ReadLine(h, rest, after, r.(desc := c));
    ReadLine(h, rest, after, r.(desc := ""));
    HeaderForgets(r, c, h, after);
  }

  lemma HeaderForgets(r: Reader, c: string, h: string, buffer: string)
    requires GoodLine(h) && IsHeader(h) && ValidReader(r) && |buffer| == LINE_SIZE
    ensures var b := Filled(buffer, h);
            Terminated(b) && TakeLine(r.(desc := c), b) == TakeLine(r.(desc := ""), b)
  {
    hide Filled, HeaderName, IsHeader;
    FilledLine(buffer, h);
  }
}
