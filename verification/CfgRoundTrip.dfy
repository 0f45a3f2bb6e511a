/** Reading what was written: for well-formed stores `cfg_read` undoes `cfg_write`. */
module CfgRoundTrip {
  import opened CString
  import opened Wrappers
  import opened CfgModel

  // ----- well-formed stores -------------------------------------------------

  predicate Plain(s: string) {
    forall i :: 0 <= i < |s| ==> IsAscii(s[i]) && s[i] != NUL && s[i] != NEWLINE
  }

  /** A line that `_readline` returns as it stands in the file. */
  predicate GoodLine(l: string) {
    Plain(l) && 0 < |l| < LINE_SIZE && !IsSpace(l[0]) && !IsSpace(l[|l| - 1])
  }

  predicate GoodName(name: string) {
    Plain(name) && Upper(name) == name && ']' !in name && |name| < NAME_SIZE
  }

  predicate GoodDesc(desc: string) {
    GoodLine(desc) && desc[0] == ';'
  }

  /** A keyword in its stored form, on a line that is read neither as a header nor as
    a comment. */
  predicate GoodItem(item: Item) {
    && (item.desc.Some? ==> GoodDesc(item.desc.value))
    && '=' !in item.keyword && |item.keyword| < KEYWORD_SIZE
    && Trim(Upper(item.keyword)) == item.keyword
    && GoodLine(ItemLine(item))
    && !IsHeader(ItemLine(item)) && Peek(ItemLine(item)) != ';' && Peek(ItemLine(item)) != '#'
  }

  predicate GoodItems(items: seq<Item>) {
    && (forall i :: 0 <= i < |items| ==> GoodItem(items[i]))
    && (forall i, j :: 0 <= i < j < |items| ==> items[i].keyword != items[j].keyword)
  }

  predicate GoodStore(sections: seq<Section>) {
    && (forall i :: 0 <= i < |sections| ==> GoodName(sections[i].name) && GoodItems(sections[i].items))
    && (forall i, j :: 0 <= i < j < |sections| ==> sections[i].name != sections[j].name)
  }

  // ----- one line -----------------------------------------------------------

  lemma {:induction false} ScanOn(raw: string, l: string, rest: string, room: nat)
    requires raw != [] && Plain(l) && |raw| + |l| <= room
    ensures Scan(l + "\n" + rest, raw, room) == Scanned(raw + l, rest, false)
    decreases |l|
  {
    var text := l + "\n" + rest;
    if l == [] {
      assert text[0] == NEWLINE && text[1..] == rest;
      assert raw + l == raw;
    } else {
      assert text[0] == l[0] && text[1..] == l[1..] + "\n" + rest;
      ScanOn(raw + [l[0]], l[1..], rest, room);
      assert raw + [l[0]] + l[1..] == raw + l;
    }
  }

  lemma ScanLine(l: string, rest: string)
    requires GoodLine(l)
    ensures Scan(l + "\n" + rest, "", LINE_SIZE - 1) == Scanned(l, rest, false)
  {
    var text := l + "\n" + rest;
    assert text[0] == l[0] && text[1..] == l[1..] + "\n" + rest;
    ScanOn([l[0]], l[1..], rest, LINE_SIZE - 1);
    assert [l[0]] + l[1..] == l;
  }

  lemma {:induction false} CStrOf(s: string, k: nat)
    requires k < |s| && s[k] == NUL && NulFree(s[..k])
    ensures CStr(s) == s[..k]
  {
    if k > 0 {
      assert s[0] == s[..k][0] && s[1..][..k - 1] == s[..k][1..];
      CStrOf(s[1..], k - 1);
    }
  }

  lemma FilledLine(buffer: string, l: string)
    requires GoodLine(l) && |buffer| == LINE_SIZE
    ensures var b := Filled(buffer, l);
            b[..|l|] == l && b[|l|] == NUL && CStr(b) == l && Terminated(b)
  {
    var b := Filled(buffer, l);
    assert b[..|l|] == l;
    CStrOf(b, |l|);
  }

  lemma FilledBlank(buffer: string)
    requires |buffer| == LINE_SIZE
    ensures CStr(Filled(buffer, "")) == "" && Terminated(Filled(buffer, ""))
  {
  }

  /** The line that stands next in the file is taken. */
  lemma ReadLine(l: string, rest: string, buffer: string, r: Reader)
    requires GoodLine(l) && |buffer| == LINE_SIZE && ValidReader(r)
    ensures var b := Filled(buffer, l);
            Terminated(b) && ReadFrom(l + "\n" + rest, false, buffer, r) == ReadFrom(rest, false, b, TakeLine(r, b))
  {
    hide Scan, Filled, TakeLine;
    ScanLine(l, rest);
    FilledLine(buffer, l);
  }

  lemma ReadBlank(rest: string, buffer: string, r: Reader)
    requires |buffer| == LINE_SIZE && ValidReader(r)
    ensures var b := Filled(buffer, "");
            ReadFrom("\n" + rest, false, buffer, r) == ReadFrom(rest, false, b, r.(current := None))
  {
    hide Filled;
    FilledBlank(buffer);
    assert ("\n" + rest)[0] == NEWLINE && ("\n" + rest)[1..] == rest;
    assert Scan("\n" + rest, "", LINE_SIZE - 1) == Scanned("", rest, false);
  }

  lemma ReadEnd(buffer: string, r: Reader)
    requires |buffer| == LINE_SIZE && ValidReader(r)
    ensures ReadFrom("", false, buffer, r) == r.sections
  {
    hide Filled;
    FilledBlank(buffer);
    assert Scan("", "", LINE_SIZE - 1) == Scanned("", "", true);
  }

  // ----- headers, comments, items -------------------------------------------

  lemma {:induction false} IndexOfIs(s: string, c: char, k: nat)
    requires k <= |s| && (k < |s| ==> s[k] == c) && forall i :: 0 <= i < k ==> s[i] != c
    ensures IndexOf(s, c) == k
  {
  }

  lemma HeaderLine(name: string)
    requires GoodName(name)
    ensures var l := "[" + name + "]";
            GoodLine(l) && IsHeader(l) && HeaderName(l) == name
  {
    var l := "[" + name + "]";
    IndexOfIs(l, ']', |name| + 1);
    assert l[1..|name| + 1] == name;
  }

  /** The open section, behind finished ones, with the items read so far. */
  function Open(done: seq<Section>, name: string, items: seq<Item>, desc: string): (r: Reader)
    ensures ValidReader(r)
  {
    Reader(done + [Section(name, items)], Some(|done|), desc)
  }

  predicate NewName(done: seq<Section>, name: string) {
    forall k :: 0 <= k < |done| ==> done[k].name != name
  }

  lemma TakeHeader(done: seq<Section>, name: string, buffer: string)
    requires GoodName(name) && NewName(done, name) && |buffer| == LINE_SIZE
    ensures var b := Filled(buffer, "[" + name + "]");
            Terminated(b) && TakeLine(Reader(done, None, ""), b) == Open(done, name, [], "")
  {
    hide Filled, HeaderName, IsHeader;
    HeaderLine(name);
    FilledLine(buffer, "[" + name + "]");
  }

  lemma TakeDesc(done: seq<Section>, name: string, items: seq<Item>, desc: string, buffer: string)
    requires GoodDesc(desc) && |buffer| == LINE_SIZE
    ensures var b := Filled(buffer, desc);
            Terminated(b) && TakeLine(Open(done, name, items, ""), b) == Open(done, name, items, desc)
  {
    hide Filled;
    FilledLine(buffer, desc);
  }

  function DescOf(desc: Option<string>): string {
    match desc
    case None => ""
    case Some(d) => d
  }

  lemma GoodParts(item: Item)
    requires GoodItem(item)
    ensures Plain(ItemLine(item)) && |ItemLine(item)| < LINE_SIZE
    ensures item.desc.Some? ==>
              var d := item.desc.value;
              GoodLine(d) && 0 < |d| < LINE_SIZE && Peek(d) == ';'
  {
  }

  lemma ItemOfLine(item: Item, buffer: string)
    requires GoodItem(item) && |buffer| == LINE_SIZE
    ensures var l := ItemLine(item);
            ItemOf(l, Filled(buffer, l), DescOf(item.desc)) == item
  {
    hide Filled, Trim, GoodDesc, GoodLine, IsHeader, CStr, IndexOf, NulFree, Plain;
    var l, n := ItemLine(item), |item.keyword|;
    GoodParts(item);
    var b := Filled(buffer, l);
    FilledLine(buffer, l);
    IndexOfIs(l, '=', n);
    assert l[..n] == item.keyword && l[n + 1..] == item.value;
    PlainValue(l, n + 1);
    PrefixDrop(b, l, n + 1);
    CStrOf(b[n + 1..], |item.value|);
  }

  lemma PlainValue(l: string, n: nat)
    requires n <= |l| && Plain(l)
    ensures NulFree(l[n..])
  {
  }

  lemma PrefixDrop(b: string, l: string, n: nat)
    requires n <= |l| < |b| && b[..|l|] == l
    ensures b[n..][..|l| - n] == l[n..] && b[n..][|l| - n] == b[|l|]
  {
  }

  lemma TakeItem(done: seq<Section>, name: string, items: seq<Item>, item: Item, buffer: string)
    requires GoodItem(item) && |buffer| == LINE_SIZE
    requires forall k :: 0 <= k < |items| ==> items[k].keyword != item.keyword
    ensures var b := Filled(buffer, ItemLine(item));
            Terminated(b) &&
            TakeLine(Open(done, name, items, DescOf(item.desc)), b) == Open(done, name, items + [item], "")
  {
    hide Filled, ItemOf, ItemLine, IsHeader;
    FilledLine(buffer, ItemLine(item));
    ItemOfLine(item, buffer);
  }

  // ----- whole items, sections, stores --------------------------------------

  /** Reading one item's text leaves the rest to be read, over some buffer. */
  lemma ReadItem(done: seq<Section>, name: string, items: seq<Item>, item: Item, rest: string, buffer: string)
    returns (after: string)
    requires GoodItem(item) && |buffer| == LINE_SIZE
    requires forall k :: 0 <= k < |items| ==> items[k].keyword != item.keyword
    ensures |after| == LINE_SIZE
    ensures ReadFrom(ItemText(item) + rest, false, buffer, Open(done, name, items, "")) ==
            ReadFrom(rest, false, after, Open(done, name, items + [item], ""))
  {
    hide ReadFrom, TakeLine, Filled, Open, GoodDesc, GoodLine;
    var l := ItemLine(item);
    GoodParts(item);
    after := buffer;
    if item.desc.Some? {
      var d := item.desc.value;
      assert ItemText(item) + rest == d + "\n" + (l + "\n" + rest);
      ReadLine(d, l + "\n" + rest, after, Open(done, name, items, ""));
      TakeDesc(done, name, items, d, after);
      after := Filled(after, d);
    } else {
      assert ItemText(item) + rest == l + "\n" + rest;
    }
    ReadLine(l, rest, after, Open(done, name, items, DescOf(item.desc)));
    TakeItem(done, name, items, item, after);
    after := Filled(after, l);
  }

  lemma {:induction false} ReadItems(done: seq<Section>, name: string, read: seq<Item>, items: seq<Item>,
                                     rest: string, buffer: string)
    returns (after: string)
    requires GoodItems(read + items) && |buffer| == LINE_SIZE
    ensures |after| == LINE_SIZE
    ensures ReadFrom(ItemsText(items) + rest, false, buffer, Open(done, name, read, "")) ==
            ReadFrom(rest, false, after, Open(done, name, read + items, ""))
    decreases |items|
  {
    hide ReadFrom, Open, ItemText, GoodItem;
    if items == [] {
      after := buffer;
      assert ItemsText(items) + rest == rest && read + items == read;
    } else {
      var item, tail := items[0], items[1..];
      assert ItemsText(items) + rest == ItemText(item) + (ItemsText(tail) + rest);
      assert (read + items)[|read|] == item;
      forall k | 0 <= k < |read|
        ensures read[k].keyword != item.keyword
      {
        assert (read + items)[k] == read[k];
      }
      after := ReadItem(done, name, read, item, ItemsText(tail) + rest, buffer);
      assert read + [item] + tail == read + items;
      after := ReadItems(done, name, read + [item], tail, rest, after);
    }
  }

  lemma ReadSection(done: seq<Section>, section: Section, rest: string, buffer: string)
    returns (after: string)
    requires GoodName(section.name) && GoodItems(section.items) && NewName(done, section.name)
    requires |buffer| == LINE_SIZE
    ensures |after| == LINE_SIZE
    ensures ReadFrom(SectionText(section) + rest, false, buffer, Reader(done, None, "")) ==
            ReadFrom(rest, false, after, Reader(done + [section], None, ""))
  {
    hide ReadFrom, TakeLine, Filled, ItemsText, GoodItems, GoodName, NewName;
    var name, items := section.name, section.items;
    var header := "[" + name + "]";
    var body := ItemsText(items) + ("\n" + rest);
    assert SectionText(section) + rest == header + "\n" + body;
    HeaderLine(name);
    ReadLine(header, body, buffer, Reader(done, None, ""));
    TakeHeader(done, name, buffer);
    assert [] + items == items;
    after := ReadItems(done, name, [], items, "\n" + rest, Filled(buffer, header));
    ReadBlank(rest, after, Open(done, name, items, ""));
    after := Filled(after, "");
  }

  lemma {:induction false} ReadSections(done: seq<Section>, sections: seq<Section>, buffer: string)
    requires GoodStore(done + sections) && |buffer| == LINE_SIZE
    ensures ReadFrom(StoreText(sections), false, buffer, Reader(done, None, "")) == done + sections
    decreases |sections|
  {
    hide ReadFrom, SectionText, GoodName, GoodItems;
    if sections == [] {
      ReadEnd(buffer, Reader(done, None, ""));
      assert done + sections == done;
    } else {
      var section, tail := sections[0], sections[1..];
      assert (done + sections)[|done|] == section;
      forall k | 0 <= k < |done|
        ensures done[k].name != section.name
      {
        assert (done + sections)[k] == done[k];
      }
      var after := ReadSection(done, section, StoreText(tail), buffer);
      assert done + [section] + tail == done + sections;
      ReadSections(done + [section], tail, after);
    }
  }

  // ----- comments get their mark when written -------------------------------

  /** A comment as it stands in the file. */
  function Mark(desc: string): string {
    if Peek(desc) != ';' then ";" + desc else desc
  }

  function MarkItem(item: Item): Item {
    item.(desc := if item.desc.Some? then Some(Mark(item.desc.value)) else None)
  }

  function MarkItems(items: seq<Item>): (r: seq<Item>)
    ensures |r| == |items| && forall i :: 0 <= i < |items| ==> r[i] == MarkItem(items[i])
  {
    seq(|items|, i requires 0 <= i < |items| => MarkItem(items[i]))
  }

  function MarkSection(section: Section): Section {
    section.(items := MarkItems(section.items))
  }

  function MarkStore(sections: seq<Section>): (r: seq<Section>)
    ensures |r| == |sections| && forall i :: 0 <= i < |sections| ==> r[i] == MarkSection(sections[i])
  {
    seq(|sections|, i requires 0 <= i < |sections| => MarkSection(sections[i]))
  }

  /** Every comment of the store starts with its mark. */
  predicate Marked(sections: seq<Section>) {
    forall i, j :: 0 <= i < |sections| && 0 <= j < |sections[i].items| ==>
      MarkedItem(sections[i].items[j])
  }

  predicate MarkedItem(item: Item) {
    item.desc.Some? ==> Peek(item.desc.value) == ';'
  }

  lemma MarkChanges(sections: seq<Section>)
    ensures MarkStore(sections) == sections <==> Marked(sections)
  {
    if MarkStore(sections) == sections {
      forall i, j | 0 <= i < |sections| && 0 <= j < |sections[i].items|
        ensures MarkedItem(sections[i].items[j])
      {
        assert sections[i] == MarkSection(sections[i]);
        assert sections[i].items[j] == MarkItem(sections[i].items[j]);
      }
    }
    if Marked(sections) {
      forall i | 0 <= i < |sections|
        ensures MarkSection(sections[i]) == sections[i]
      {
        assert MarkItems(sections[i].items) == sections[i].items;
      }
    }
  }

  lemma MarkTwice(sections: seq<Section>)
    ensures MarkStore(MarkStore(sections)) == MarkStore(sections)
  {
    MarkChanges(MarkStore(sections));
  }

  lemma {:induction false} ItemsTextMarked(items: seq<Item>)
    ensures ItemsText(MarkItems(items)) == ItemsText(items)
  {
    if items != [] {
      ItemsTextMarked(items[1..]);
      assert MarkItems(items)[1..] == MarkItems(items[1..]);
      DescTextMarked(items[0]);
    }
  }

  lemma DescTextMarked(item: Item)
    ensures ItemText(MarkItem(item)) == ItemText(item)
  {
  }

  /** The file does not show whether a comment had its mark before. */
  lemma {:induction false} StoreTextMarked(sections: seq<Section>)
    ensures StoreText(MarkStore(sections)) == StoreText(sections)
  {
    if sections != [] {
      StoreTextMarked(sections[1..]);
      assert MarkStore(sections)[1..] == MarkStore(sections[1..]);
      ItemsTextMarked(sections[0].items);
    }
  }

  /** A store whose text is well formed: a comment may lack its mark. */
  predicate WritableStore(sections: seq<Section>) {
    GoodStore(MarkStore(sections))
  }

  predicate WritableItem(item: Item) {
    GoodItem(MarkItem(item))
  }

  /** `cfg_read` of what `cfg_write` wrote is the store: sections, items, order and
    comments, whatever the line buffer held. Comments come back with their mark, so the
    store itself comes back exactly when every comment had it. */
  lemma WriteRead(sections: seq<Section>, buffer: string)
    requires WritableStore(sections) && |buffer| == LINE_SIZE
    ensures ReadText(StoreText(sections), buffer) == MarkStore(sections)
    ensures ReadText(StoreText(sections), buffer) == sections <==> Marked(sections)
  {
    hide ReadFrom, MarkStore, StoreText, Marked;
    StoreTextMarked(sections);
    MarkChanges(sections);
    assert [] + MarkStore(sections) == MarkStore(sections);
    ReadSections([], MarkStore(sections), buffer);
  }

  // ----- values that do not come from their line ----------------------------

  /** The item read from a line does not depend on what the buffer held. */
  ghost predicate OwnValue(l: string)
    requires |l| < LINE_SIZE
  {
    forall b, b', d :: |b| == |b'| == LINE_SIZE ==> ItemOf(l, Filled(b, l), d) == ItemOf(l, Filled(b', l), d)
  }

  /** A line whose keyword reaches its end takes its value from what an earlier line left
    in the buffer, one place behind that end. */
  lemma ValueWithoutEquals(l: string, buffer: string, desc: string)
    requires GoodLine(l) && |buffer| == LINE_SIZE && KeywordEnd(l) == |l|
    ensures ItemOf(l, Filled(buffer, l), desc).value == CStr(buffer[|l| + 1..])
  {
    assert TrimEnd(l) == l;
    assert Filled(buffer, l)[|l| + 1..] == buffer[|l| + 1..];
  }

  lemma ValueInLine(l: string, b: string, n: nat)
    requires |b| > |l| && b[..|l|] == l && b[|l|] == NUL && NulFree(l) && n < |l|
    ensures CStr(b[n + 1..]) == l[n + 1..]
  {
    PrefixDrop(b, l, n + 1);
    assert NulFree(l[n + 1..]);
    CStrOf(b[n + 1..], |l| - n - 1);
  }

  /** The value is the line's own exactly when the keyword ends before the line does: at an
    `=`, or because it is full. */
  lemma OwnValueExactly(l: string)
    requires GoodLine(l)
    ensures OwnValue(l) <==> KeywordEnd(l) < |l|
  {
    var n := KeywordEnd(l);
    if n < |l| {
      forall b, b', d | |b| == |b'| == LINE_SIZE
        ensures ItemOf(l, Filled(b, l), d) == ItemOf(l, Filled(b', l), d)
      {
        hide Filled, CStr, KeywordEnd, Trim;
        FilledLine(b, l);
        FilledLine(b', l);
        ValueInLine(l, Filled(b, l), n);
        ValueInLine(l, Filled(b', l), n);
      }
    } else {
      var b, b' := seq(LINE_SIZE, _ => 'A'), seq(LINE_SIZE, _ => NUL);
      ValueWithoutEquals(l, b, "");
      ValueWithoutEquals(l, b', "");
      assert b[|l| + 1..][0] == 'A' && b'[|l| + 1..][0] == NUL;
      assert ItemOf(l, Filled(b, l), "") != ItemOf(l, Filled(b', l), "");
    }
  }

  /** A line that is no item, or an item with its own value. */
  predicate SelfContained(l: string) {
    && NulFree(l)
    && (l == "" || IsHeader(l) || l[0] == ';' || l[0] == '#' || KeywordEnd(l) < |l|)
  }

  predicate AllSelfContained(text: string)
    decreases |text|
  {
    var s := Scan(text, "", LINE_SIZE - 1);
    SelfContained(TrimEnd(s.raw)) && (s.eof || AllSelfContained(s.rest))
  }

  lemma FilledHolds(buffer: string, raw: string)
    requires |raw| < |buffer| && NulFree(TrimEnd(raw))
    ensures var l, b := TrimEnd(raw), Filled(buffer, raw);
            b[..|l|] == l && b[|l|] == NUL && CStr(b) == l && Terminated(b)
  {
    var l, b := TrimEnd(raw), Filled(buffer, raw);
    assert b[..|l|] == l;
    CStrOf(b, |l|);
  }

  lemma TakeIndependent(r: Reader, b: string, b': string, raw: string)
    requires ValidReader(r) && |b| == |b'| == LINE_SIZE && |raw| < LINE_SIZE && SelfContained(TrimEnd(raw))
    ensures Terminated(Filled(b, raw)) && Terminated(Filled(b', raw))
    ensures TakeLine(r, Filled(b, raw)) == TakeLine(r, Filled(b', raw))
  {
    hide Filled, TrimEnd, CStr, OpenSection, AddItem, KeywordEnd, IsHeader, HeaderName, Trim, NulFree;
    var l := TrimEnd(raw);
    FilledHolds(b, raw);
    FilledHolds(b', raw);
    if l != "" && !IsHeader(l) && l[0] != ';' && l[0] != '#' {
      ValueInLine(l, Filled(b, raw), KeywordEnd(l));
      ValueInLine(l, Filled(b', raw), KeywordEnd(l));
    }
  }

  lemma {:induction false} ReadFromIndependent(text: string, b: string, b': string, r: Reader)
    requires ValidReader(r) && |b| == |b'| == LINE_SIZE && AllSelfContained(text)
    ensures ReadFrom(text, false, b, r) == ReadFrom(text, false, b', r)
    decreases |text|
  {
    hide Scan, Filled, TrimEnd, TakeLine, SelfContained;
    var s := Scan(text, "", LINE_SIZE - 1);
    TakeIndependent(r, b, b', s.raw);
    if !s.eof {
      ReadFromIndependent(s.rest, Filled(b, s.raw), Filled(b', s.raw), TakeLine(r, Filled(b, s.raw)));
    }
  }

  /** Of a file in which every item has its own value, `cfg_read` is a function. */
  lemma ReadIndependent(text: string, b: string, b': string)
    requires |b| == |b'| == LINE_SIZE && AllSelfContained(text)
    ensures ReadText(text, b) == ReadText(text, b')
  {
    ReadFromIndependent(text, b, b', Reader([], None, ""));
  }

  // ----- setting keeps a store well formed ----------------------------------

  lemma FindMarked(sections: seq<Section>, name: string)
    ensures FindSection(MarkStore(sections), name) == FindSection(sections, name)
  {
    match FindSection(sections, name)
    case Some(i) => SectionAt(MarkStore(sections), name, i);
    case None =>
  }

  lemma FindItemMarked(items: seq<Item>, keyword: string)
    ensures FindItem(MarkItems(items), keyword) == FindItem(items, keyword)
  {
    match FindItem(items, keyword)
    case Some(i) => FoundAt(MarkItems(items), keyword, i);
    case None =>
  }

  lemma MarkKeepsValues(sections: seq<Section>, name: string, keyword: string)
    ensures GetItem(MarkStore(sections), name, keyword) == GetItem(sections, name, keyword)
  {
    FindMarked(sections, Upper(name));
    match FindSection(sections, Upper(name))
    case Some(i) => FindItemMarked(sections[i].items, Upper(keyword));
    case None =>
  }

  lemma MarkReplaced(items: seq<Item>, item: Item)
    ensures MarkItems(Replaced(items, item)) == Replaced(MarkItems(items), MarkItem(item))
  {
    hide FindItem;
    FindItemMarked(items, item.keyword);
  }

  /** Marking and setting may change places. */
  lemma MarkSetItem(sections: seq<Section>, name: string, item: Item)
    ensures MarkStore(SetItem(sections, name, item)) == SetItem(MarkStore(sections), name, MarkItem(item))
  {
    hide FindSection, Replaced;
    var keyed := item.(keyword := Upper(item.keyword));
    FindMarked(sections, Upper(name));
    match FindSection(sections, Upper(name))
    case Some(i) => MarkReplaced(sections[i].items, keyed);
    case None => assert MarkItems([keyed]) == [MarkItem(keyed)];
  }

  lemma GoodSetItem(sections: seq<Section>, name: string, item: Item)
    requires GoodStore(sections) && GoodName(Upper(name)) && GoodItem(item.(keyword := Upper(item.keyword)))
    ensures GoodStore(SetItem(sections, name, item))
  {
    hide GoodItem, GoodName;
    var keyed := item.(keyword := Upper(item.keyword));
    match FindSection(sections, Upper(name))
    case None =>
    case Some(i) => ReplacedKeepsGood(sections[i].items, keyed);
  }

  lemma ReplacedKeepsGood(items: seq<Item>, item: Item)
    requires GoodItems(items) && GoodItem(item)
    ensures GoodItems(Replaced(items, item))
  {
    hide GoodLine, GoodDesc, Trim;
  }

  lemma SetItemKeepsGood(sections: seq<Section>, name: string, item: Item)
    requires WritableStore(sections) && GoodName(Upper(name)) && WritableItem(item.(keyword := Upper(item.keyword)))
    ensures WritableStore(SetItem(sections, name, item))
  {
    hide GoodStore, GoodItem, GoodName, SetItem, MarkStore;
    MarkSetItem(sections, name, item);
    GoodSetItem(MarkStore(sections), name, MarkItem(item));
  }

  /** A setting survives writing and reading, with any comment. */
  lemma SettingSurvives(sections: seq<Section>, name: string, item: Item, buffer: string)
    requires WritableStore(sections) && GoodName(Upper(name)) && WritableItem(item.(keyword := Upper(item.keyword)))
    requires |buffer| == LINE_SIZE
    ensures GetItem(ReadText(StoreText(SetItem(sections, name, item)), buffer), name, item.keyword) == Some(item.value)
  {
    hide WritableStore, WritableItem, ReadText, StoreText, GetItem, SetItem, MarkStore;
    SetItemKeepsGood(sections, name, item);
    WriteRead(SetItem(sections, name, item), buffer);
    MarkKeepsValues(SetItem(sections, name, item), name, item.keyword);
    SetThenGet(sections, name, item, name, item.keyword);
  }

  // ----- reading yields well-formed stores ----------------------------------

  /** An ordinary line: no control characters, room for the mark that a comment with `#`
    gets, and an `=` within reach of the keyword. */
  predicate TidyLine(l: string) {
    && (forall i :: 0 <= i < |l| ==> 32 <= l[i] as int < 128)
    && (Peek(l) == '#' ==> |l| + 1 < LINE_SIZE)
    && (IsItem(l) ==> IndexOf(l, '=') < |l| && IndexOf(l, '=') < KEYWORD_SIZE)
  }

  predicate IsItem(l: string) {
    l != "" && !IsHeader(l) && l[0] != ';' && l[0] != '#'
  }

  predicate Tidy(text: string)
    decreases |text|
  {
    var s := Scan(text, "", LINE_SIZE - 1);
    TidyLine(TrimEnd(s.raw)) && (s.eof || Tidy(s.rest))
  }

  lemma {:induction false} TidySelfContained(text: string)
    requires Tidy(text)
    ensures AllSelfContained(text)
    decreases |text|
  {
    hide Scan, TrimEnd;
    var s := Scan(text, "", LINE_SIZE - 1);
    TidyLineSelfContained(TrimEnd(s.raw));
    if !s.eof {
      TidySelfContained(s.rest);
    }
  }

  lemma TidyLineSelfContained(l: string)
    requires TidyLine(l)
    ensures SelfContained(l)
  {
  }

  /** The state of the reader with every comment marked. */
  function MarkReader(r: Reader): Reader {
    Reader(MarkStore(r.sections), r.current, MarkPending(r.desc))
  }

  function MarkPending(desc: string): string {
    if desc == "" then "" else Mark(desc)
  }

  ghost predicate GoodReader(r: Reader) {
    ValidReader(r) && GoodStore(r.sections) && (r.desc == "" || GoodDesc(r.desc))
  }

  lemma MarkOpen(r: Reader, name: string)
    ensures MarkReader(OpenSection(r, name)) == OpenSection(MarkReader(r), name)
  {
    hide FindSection;
    FindMarked(r.sections, name);
    assert MarkItems([]) == [];
  }

  lemma MarkAppended(items: seq<Item>, item: Item)
    ensures MarkItems(Appended(items, item)) == Appended(MarkItems(items), MarkItem(item))
  {
    hide FindItem;
    FindItemMarked(items, item.keyword);
  }

  lemma MarkAdd(r: Reader, item: Item)
    requires ValidReader(r) && r.current.Some?
    ensures ValidReader(MarkReader(r)) && MarkReader(AddItem(r, item)) == AddItem(MarkReader(r), MarkItem(item))
  {
    hide Appended;
    MarkAppended(r.sections[r.current.value].items, item);
  }

  lemma {:induction false} ScanStart(text: string, raw: string, room: nat)
    requires |raw| <= room && 0 < room && (raw == [] || !IsSpace(raw[0]))
    ensures var s := Scan(text, raw, room);
            s.raw == [] || !IsSpace(s.raw[0])
    decreases |text|
  {
    if text != [] {
      var c, rest := text[0], text[1..];
      if !IsAscii(c) {
        ScanStart(rest, raw, room);
      } else if c != NEWLINE && raw == [] {
        ScanStart(rest, if IsSpace(c) then [] else [c], room);
      } else if c != NEWLINE && |raw| < room {
        ScanStart(rest, raw + [c], room);
      }
    }
  }

  lemma {:induction false} TrimEndKeeps(s: string)
    requires s != [] && !IsSpace(s[0])
    ensures TrimEnd(s) != []
    decreases |s|
  {
    if IsSpace(s[|s| - 1]) {
      TrimEndKeeps(s[..|s| - 1]);
    }
  }

  /** The buffer after a tidy line was scanned. */
  lemma FilledTidy(buffer: string, raw: string)
    requires |buffer| == LINE_SIZE && |raw| < LINE_SIZE && (raw == [] || !IsSpace(raw[0]))
    requires TidyLine(TrimEnd(raw))
    ensures var l, b := TrimEnd(raw), Filled(buffer, raw);
            b[..|l|] == l && b[|l|] == NUL && CStr(b) == l && (l == "" || GoodLine(l))
  {
    var l, b := TrimEnd(raw), Filled(buffer, raw);
    assert b[..|l|] == l;
    CStrOf(b, |l|);
    if raw != [] {
      TrimEndKeeps(raw);
    }
  }

  lemma HeaderNameIsGood(l: string)
    requires TidyLine(l) && IsHeader(l)
    ensures GoodName(HeaderName(l))
  {
  }

  /** The keyword as stored: the front of the line in upper case, without the spaces
    behind it. */
  lemma KeywordOf(l: string, n: nat)
    requires TidyLine(l) && n <= |l| && (n > 0 ==> !IsSpace(l[0]))
    ensures var k := Trim(Upper(l[..n]));
            k <= Upper(l[..n]) && Upper(k) == k && Trim(k) == k && (n > 0 ==> k != [])
  {
    hide Trim, TrimEnd;
    var u := Upper(l[..n]);
    if n > 0 {
      assert u[0] == ToUpper(l[0]);
      TrimEndKeeps(u);
    }
    TrimOfText(u);
    var k := Trim(u);
    assert k <= u && forall i :: 0 <= i < |k| ==> k[i] == u[i];
    assert Upper(k) == k;
    TrimOfText(k);
    TrimEndTwice(u);
  }

  lemma TrimOfText(u: string)
    requires u == "" || (!IsSpace(u[0]) && 32 <= u[0] as int)
    ensures Trim(u) == TrimEnd(u)
  {
  }

  lemma TrimEndTwice(u: string)
    ensures TrimEnd(TrimEnd(u)) == TrimEnd(u)
  {
  }

  lemma ItemOfIsGood(l: string, b: string, desc: string)
    requires TidyLine(l) && GoodLine(l) && IsItem(l)
    requires |l| < |b| && b[..|l|] == l && b[|l|] == NUL
    requires desc == "" || GoodDesc(desc)
    ensures GoodItem(ItemOf(l, b, desc))
  {
    var n := IndexOf(l, '=');
    var item := ItemOf(l, b, desc);
    PlainValue(l, n + 1);
    PrefixDrop(b, l, n + 1);
    CStrOf(b[n + 1..], |l| - n - 1);
    KeywordOf(l, n);
    ItemLineIsGood(l, n, item.keyword, item.value);
  }

  lemma ItemLineIsGood(l: string, n: nat, k: string, value: string)
    requires TidyLine(l) && GoodLine(l) && IsItem(l)
    requires n < |l| && l[n] == '=' && value == l[n + 1..]
    requires k <= Upper(l[..n]) && (n > 0 ==> k != [])
    ensures var line := k + "=" + value;
            GoodLine(line) && !IsHeader(line) && Peek(line) != ';' && Peek(line) != '#'
  {
    var line := k + "=" + value;
    forall i | 0 <= i < |line|
      ensures 32 <= line[i] as int < 128 && (line[i] == ']' ==> ']' in l)
    {
      if i < |k| {
        assert line[i] == Upper(l[..n])[i] == ToUpper(l[i]);
      } else if i > |k| {
        assert line[i] == l[n + i - |k|];
      }
    }
    if k != [] {
      assert line[0] == Upper(l[..n])[0] == ToUpper(l[0]);
    }
    if value != [] {
      assert line[|line| - 1] == value[|value| - 1] == l[|l| - 1];
    }
    assert ']' in line ==> ']' in l;
  }

  lemma AppendedKeepsGood(items: seq<Item>, item: Item)
    requires GoodItems(items) && GoodItem(item)
    ensures GoodItems(Appended(items, item))
  {
    hide GoodItem;
  }

  lemma OpenKeepsGood(r: Reader, name: string)
    requires GoodReader(r) && GoodName(name)
    ensures GoodReader(OpenSection(r, name))
  {
    hide GoodItem, GoodName;
  }

  lemma AddKeepsGood(r: Reader, item: Item)
    requires GoodReader(r) && r.current.Some? && GoodItem(item)
    ensures GoodReader(AddItem(r, item))
  {
    hide GoodItems, GoodName, Appended, GoodItem;
    var items := r.sections[r.current.value].items;
    AppendedKeepsGood(items, item);
  }

  lemma GoodPending(l: string)
    requires TidyLine(l) && GoodLine(l) && (l[0] == ';' || l[0] == '#')
    ensures MarkPending(l) != "" && GoodDesc(MarkPending(l))
  {
  }

  lemma TakeKeepsGood(r: Reader, buffer: string, raw: string)
    requires ValidReader(r) && GoodReader(MarkReader(r)) && |buffer| == LINE_SIZE
    requires |raw| < LINE_SIZE && (raw == [] || !IsSpace(raw[0])) && TidyLine(TrimEnd(raw))
    ensures Terminated(Filled(buffer, raw))
    ensures ValidReader(TakeLine(r, Filled(buffer, raw))) && GoodReader(MarkReader(TakeLine(r, Filled(buffer, raw))))
  {
    hide Filled, TrimEnd, GoodStore, GoodName, GoodItem, GoodDesc, GoodLine, TidyLine, ItemOf, HeaderName, CStr, AddItem,
         OpenSection, IsHeader, MarkStore, MarkPending, MarkItem;
    FilledTidy(buffer, raw);
    var l, b := TrimEnd(raw), Filled(buffer, raw);
    if l == "" {
    } else if IsHeader(l) {
      HeaderNameIsGood(l);
      MarkOpen(r, HeaderName(l));
      OpenKeepsGood(MarkReader(r), HeaderName(l));
    } else if r.current.None? {
    } else if l[0] == ';' || l[0] == '#' {
      GoodPending(l);
    } else {
      var item := ItemOf(l, b, r.desc);
      MarkItemOf(l, b, r.desc);
      ItemOfIsGood(l, b, MarkPending(r.desc));
      MarkAdd(r, item);
      AddKeepsGood(MarkReader(r), MarkItem(item));
    }
  }

  lemma MarkItemOf(l: string, b: string, desc: string)
    requires |l| < |b|
    ensures MarkItem(ItemOf(l, b, desc)) == ItemOf(l, b, MarkPending(desc))
  {
  }

  lemma {:induction false} ReadFromIsGood(text: string, buffer: string, r: Reader)
    requires ValidReader(r) && GoodReader(MarkReader(r)) && |buffer| == LINE_SIZE && Tidy(text)
    ensures WritableStore(ReadFrom(text, false, buffer, r))
    decreases |text|
  {
    hide GoodStore, TakeLine, TidyLine, TrimEnd, Filled, Scan, GoodDesc, MarkStore, MarkPending;
    var s := Scan(text, "", LINE_SIZE - 1);
    ScanStart(text, "", LINE_SIZE - 1);
    TakeKeepsGood(r, buffer, s.raw);
    if !s.eof {
      ReadFromIsGood(s.rest, Filled(buffer, s.raw), TakeLine(r, Filled(buffer, s.raw)));
    }
  }

  /** Reading a tidy file gives the same store whatever the buffers hold, and writing it
    back is a normal form: the next reading finds that store with its comments marked,
    and every later one the same again. */
  lemma ReadWriteRead(text: string, buffer: string, buffer': string)
    requires |buffer| == |buffer'| == LINE_SIZE && Tidy(text)
    ensures ReadText(text, buffer) == ReadText(text, buffer')
    ensures var ss := ReadText(text, buffer);
            && WritableStore(ss)
            && ReadText(StoreText(ss), buffer') == MarkStore(ss)
            && ReadText(StoreText(MarkStore(ss)), buffer') == MarkStore(ss)
            && (ReadText(StoreText(ss), buffer') == ss <==> Marked(ss))
  {
    hide Tidy, ReadFrom, StoreText, MarkStore, Marked, AllSelfContained, GoodStore;
    TidySelfContained(text);
    ReadIndependent(text, buffer, buffer');
    assert MarkStore([]) == [];
    EmptyIsGood();
    ReadFromIsGood(text, buffer, Reader([], None, ""));
    var ss := ReadText(text, buffer);
    WriteRead(ss, buffer');
    MarkTwice(ss);
    WriteRead(MarkStore(ss), buffer');
  }

  lemma EmptyIsGood()
    ensures GoodStore([])
  {
  }
}
