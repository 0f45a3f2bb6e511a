/** On which files `cfg_read` depends on what its line buffer held before: exactly on those
  that leave a setting whose value was read behind all that the file had put there. */
module CfgBuffer {
  import opened CString
  import opened Wrappers
  import opened CfgModel
  import opened CfgRoundTrip

  // ----- the front of the buffer that the file determines ---------------------

  /** The buffer after some lines: its front comes from the file, its rest is as before. */
  function Over(known: string, buffer: string): string
    requires |known| <= |buffer|
  {
    known + buffer[|known|..]
  }

  /** The front after one more line. */
  function KnownAfter(known: string, raw: string): (k: string)
    requires |known| <= LINE_SIZE && |raw| < LINE_SIZE
    ensures |k| <= LINE_SIZE && Terminated(k)
  {
    var base, end := raw + (if |raw| < |known| then known[|raw|..] else ""), |TrimEnd(raw)|;
    var k := base[..end] + [NUL] + (if end < |base| then base[end + 1..] else "");
    CStrStops(k, end);
    k
  }

  lemma FilledOver(known: string, buffer: string, raw: string)
    requires |known| <= LINE_SIZE == |buffer| && |raw| < LINE_SIZE
    ensures Filled(Over(known, buffer), raw) == Over(KnownAfter(known, raw), buffer)
  {
    hide TrimEnd, CStr;
    var base := raw + (if |raw| < |known| then known[|raw|..] else "");
    assert raw + Over(known, buffer)[|raw|..] == base + buffer[|base|..];
    var end := |TrimEnd(raw)|;
    assert (base + buffer[|base|..])[end := NUL] == Over(KnownAfter(known, raw), buffer);
  }

  lemma {:induction false} CStrOver(k: string, rest: string)
    requires Terminated(k)
    ensures CStr(k + rest) == CStr(k) && Terminated(k + rest)
  {
    if k[0] != NUL {
      assert (k + rest)[1..] == k[1..] + rest;
      CStrOver(k[1..], rest);
    }
  }

  lemma {:induction false} CStrJoin(s: string, rest: string)
    requires NulFree(s)
    ensures CStr(s + rest) == s + CStr(rest)
  {
    if s == "" {
      assert s + rest == rest;
    } else {
      assert (s + rest)[0] == s[0] && (s + rest)[1..] == s[1..] + rest;
      CStrJoin(s[1..], rest);
    }
  }

  /** The value of the line in the buffer runs on behind what the file determines. */
  predicate RunsOut(known: string)
    requires Terminated(known)
  {
    |known| < LINE_SIZE && !Terminated(known[KeywordEnd(CStr(known)) + 1..])
  }

  lemma LineOver(k: string, buffer: string)
    requires |k| <= LINE_SIZE == |buffer| && Terminated(k)
    ensures Terminated(Over(k, buffer)) && CStr(Over(k, buffer)) == CStr(k)
  {
    CStrOver(k, buffer[|k|..]);
  }

  lemma ValueOver(k: string, buffer: string, n: nat)
    requires |k| <= LINE_SIZE == |buffer| && n <= |k|
    ensures CStr(Over(k, buffer)[n..]) ==
            if |k| < LINE_SIZE && !Terminated(k[n..]) then k[n..] + CStr(buffer[|k|..]) else CStr(k[n..])
  {
    hide CStr;
    assert Over(k, buffer)[n..] == k[n..] + buffer[|k|..];
    if |k| == LINE_SIZE {
      assert k[n..] + buffer[|k|..] == k[n..];
    } else if Terminated(k[n..]) {
      CStrOver(k[n..], buffer[|k|..]);
    } else {
      assert CStr(k[n..]) == k[n..];
      CStrJoin(k[n..], buffer[|k|..]);
    }
  }

  lemma ItemOver(k: string, buffer: string, desc: string)
    requires |k| <= LINE_SIZE == |buffer| && Terminated(k)
    ensures var n, item := KeywordEnd(CStr(k)), ItemOf(CStr(k), Over(k, buffer), desc);
            && item.keyword == KeywordOfLine(CStr(k))
            && item.desc == (if desc == "" then None else Some(desc))
            && item.value == if RunsOut(k) then k[n + 1..] + CStr(buffer[|k|..]) else CStr(k[n + 1..])
  {
    hide KeywordEnd, Trim, CStr, Over, Upper;
    ValueOver(k, buffer, KeywordEnd(CStr(k)) + 1);
  }

  function KeywordOfLine(line: string): string {
    Trim(Upper(line[..KeywordEnd(line)]))
  }

  // ----- settings the file does not determine ---------------------------------

  type Key = (string, string)

  /** What one pass over the file keeps track of: the determined front of the buffer, the
    open section, and the settings that are not determined so far. */
  datatype Tracker = Tracker(known: string, section: Option<string>, loose: set<Key>)

  predicate ValidTracker(t: Tracker) {
    |t.known| <= LINE_SIZE
  }

  function Track(t: Tracker, raw: string): (t': Tracker)
    requires ValidTracker(t) && |raw| < LINE_SIZE
    ensures ValidTracker(t')
  {
    var k := KnownAfter(t.known, raw);
    var line := CStr(k);
    if line == "" then Tracker(k, None, t.loose)
    else if IsHeader(line) then Tracker(k, Some(HeaderName(line)), t.loose)
    else if t.section.None? || !IsItem(line) then Tracker(k, t.section, t.loose)
    else
      var key := (t.section.value, KeywordOfLine(line));
      Tracker(k, t.section, if RunsOut(k) then t.loose + {key} else t.loose - {key})
  }

  function LooseFrom(text: string, t: Tracker): set<Key>
    requires ValidTracker(t)
    decreases |text|
  {
    var s := Scan(text, "", LINE_SIZE - 1);
    var t' := Track(t, s.raw);
    if s.eof then t'.loose else LooseFrom(s.rest, t')
  }

  /** The settings, by section and keyword, whose value the file does not determine. */
  function Loose(text: string): set<Key> {
    LooseFrom(text, Tracker("", None, {}))
  }

  // ----- two readings of one file ---------------------------------------------

  /** With `apart`, a loose setting has two different values. */
  predicate AlikeItem(x: Item, y: Item, loose: bool, apart: bool) {
    && x.keyword == y.keyword && x.desc == y.desc
    && (!loose ==> x.value == y.value)
    && (loose && apart ==> x.value != y.value)
  }

  predicate AlikeItems(name: string, xs: seq<Item>, ys: seq<Item>, loose: set<Key>, apart: bool) {
    && |xs| == |ys|
    && (forall j :: 0 <= j < |xs| ==> AlikeItem(xs[j], ys[j], (name, xs[j].keyword) in loose, apart))
  }

  predicate UniqueItems(xs: seq<Item>) {
    forall i, j :: 0 <= i < j < |xs| ==> xs[i].keyword != xs[j].keyword
  }

  predicate AlikeStores(ss: seq<Section>, ss': seq<Section>, loose: set<Key>, apart: bool) {
    && |ss| == |ss'|
    && (forall i :: 0 <= i < |ss| ==>
          ss[i].name == ss'[i].name && AlikeItems(ss[i].name, ss[i].items, ss'[i].items, loose, apart))
  }

  predicate UniqueStore(ss: seq<Section>) {
    && (forall i :: 0 <= i < |ss| ==> UniqueItems(ss[i].items))
    && (forall i, j :: 0 <= i < j < |ss| ==> ss[i].name != ss[j].name)
  }

  /** The setting of a section and a keyword in their stored form. */
  function Setting(ss: seq<Section>, name: string, keyword: string): Option<string> {
    match FindSection(ss, name)
    case None => None
    case Some(i) => ItemValue(ss[i].items, keyword)
  }

  ghost predicate AllPresent(ss: seq<Section>, loose: set<Key>) {
    forall name, keyword :: (name, keyword) in loose ==> Setting(ss, name, keyword).Some?
  }

  ghost predicate Twins(r: Reader, r': Reader, t: Tracker, apart: bool) {
    && ValidReader(r) && ValidReader(r') && r.current == r'.current && r.desc == r'.desc
    && (t.section.Some? <==> r.current.Some?)
    && (r.current.Some? ==> r.sections[r.current.value].name == t.section.value)
    && UniqueStore(r.sections) && AlikeStores(r.sections, r'.sections, t.loose, apart)
    && AllPresent(r.sections, t.loose)
  }

  lemma AlikeFindItem(name: string, xs: seq<Item>, ys: seq<Item>, loose: set<Key>, apart: bool, keyword: string)
    requires AlikeItems(name, xs, ys, loose, apart)
    ensures FindItem(xs, keyword) == FindItem(ys, keyword)
  {
    match FindItem(xs, keyword)
    case Some(i) => FoundAt(ys, keyword, i);
    case None =>
  }

  lemma AlikeFindSection(ss: seq<Section>, ss': seq<Section>, loose: set<Key>, apart: bool, name: string)
    requires AlikeStores(ss, ss', loose, apart)
    ensures FindSection(ss, name) == FindSection(ss', name)
  {
    match FindSection(ss, name)
    case Some(i) => SectionAt(ss', name, i);
    case None =>
  }

  /** Loose settings are those in which the two readings may differ, and with `apart` do. */
  lemma AlikeSetting(ss: seq<Section>, ss': seq<Section>, loose: set<Key>, apart: bool, name: string, keyword: string)
    requires AlikeStores(ss, ss', loose, apart) && AllPresent(ss, loose)
    ensures (name, keyword) !in loose ==> Setting(ss, name, keyword) == Setting(ss', name, keyword)
    ensures (name, keyword) in loose && apart ==> Setting(ss, name, keyword) != Setting(ss', name, keyword)
  {
    hide FindSection, FindItem;
    AlikeFindSection(ss, ss', loose, apart, name);
    match FindSection(ss, name)
    case None =>
    case Some(i) =>
      AlikeFindItem(name, ss[i].items, ss'[i].items, loose, apart, keyword);
  }

  lemma LooseElsewhere(loose: set<Key>, loose': set<Key>, key: Key)
    requires loose' - {key} == loose - {key}
    ensures forall other :: other != key ==> (other in loose' <==> other in loose)
  {
    forall other | other != key
      ensures other in loose' <==> other in loose
    {
      assert other in loose' <==> other in loose' - {key};
    }
  }

  /** The added item stands last and alone under its keyword. */
  lemma AppendedItems(xs: seq<Item>, x: Item)
    requires UniqueItems(xs)
    ensures var zs := Appended(xs, x);
            && UniqueItems(zs) && zs != [] && zs[|zs| - 1] == x
            && forall j :: 0 <= j < |zs| - 1 ==> zs[j].keyword != x.keyword
  {
    hide FindItem;
  }

  lemma AppendedAlike(name: string, xs: seq<Item>, ys: seq<Item>, x: Item, y: Item,
                      loose: set<Key>, loose': set<Key>, apart: bool)
    requires AlikeItems(name, xs, ys, loose, apart) && UniqueItems(xs)
    requires AlikeItem(x, y, (name, x.keyword) in loose', apart) && x.keyword == y.keyword
    requires loose' - {(name, x.keyword)} == loose - {(name, x.keyword)}
    ensures AlikeItems(name, Appended(xs, x), Appended(ys, y), loose', apart)
  {
    hide FindItem, AlikeItem, UniqueItems;
    AlikeFindItem(name, xs, ys, loose, apart, x.keyword);
    LooseElsewhere(loose, loose', (name, x.keyword));
    AppendedItems(xs, x);
    var zs, ws := Appended(xs, x), Appended(ys, y);
    assert ws[|ws| - 1] == y;
    forall j | 0 <= j < |zs| - 1
      ensures AlikeItem(zs[j], ws[j], (name, zs[j].keyword) in loose', apart)
    {
      var i := FindItem(xs, x.keyword);
      var k := if i.Some? && i.value <= j then j + 1 else j;
      assert zs[j] == xs[k] && ws[j] == ys[k];
    }
  }

  lemma AppendedValue(xs: seq<Item>, x: Item, keyword: string)
    requires UniqueItems(xs)
    ensures ItemValue(Appended(xs, x), keyword) == if keyword == x.keyword then Some(x.value) else ItemValue(xs, keyword)
  {
    hide FindItem;
    var zs := Appended(xs, x);
    if keyword == x.keyword {
      FoundAt(zs, keyword, |zs| - 1);
    } else {
      match FindItem(xs, keyword)
      case None =>
      case Some(k) =>
        match FindItem(xs, x.keyword) {
          case None => FoundAt(zs, keyword, k);
          case Some(i) => FoundAt(zs, keyword, if k < i then k else k - 1);
        }
    }
  }

  lemma AddItemSetting(r: Reader, item: Item, name: string, keyword: string)
    requires ValidReader(r) && r.current.Some? && UniqueStore(r.sections)
    ensures Setting(AddItem(r, item).sections, name, keyword) ==
            if name == r.sections[r.current.value].name && keyword == item.keyword then Some(item.value)
            else Setting(r.sections, name, keyword)
  {
    hide FindSection, ItemValue, Appended;
    var after, i := AddItem(r, item).sections, r.current.value;
    AppendedValue(r.sections[i].items, item, keyword);
    if name == r.sections[i].name {
      SectionAt(r.sections, name, i);
      SectionAt(after, name, i);
    } else {
      match FindSection(r.sections, name)
      case Some(j) => SectionAt(after, name, j);
      case None =>
    }
  }

  lemma OpenTwins(r: Reader, r': Reader, t: Tracker, apart: bool, name: string)
    requires Twins(r, r', t, apart)
    ensures Twins(OpenSection(r, name), OpenSection(r', name), t.(section := Some(name)), apart)
  {
    hide FindSection, ItemValue;
    AlikeFindSection(r.sections, r'.sections, t.loose, apart, name);
    var after := OpenSection(r, name).sections;
    forall n, keyword | (n, keyword) in t.loose
      ensures Setting(after, n, keyword).Some?
    {
      assert Setting(r.sections, n, keyword).Some?;
      SectionAt(after, n, FindSection(r.sections, n).value);
    }
  }

  lemma AddTwins(r: Reader, r': Reader, t: Tracker, apart: bool, x: Item, y: Item, loose: set<Key>)
    requires Twins(r, r', t, apart) && r.current.Some?
    requires AlikeItem(x, y, (t.section.value, x.keyword) in loose, apart)
    requires loose - {(t.section.value, x.keyword)} == t.loose - {(t.section.value, x.keyword)}
    ensures Twins(AddItem(r, x), AddItem(r', y), t.(loose := loose), apart)
  {
    hide FindSection, ItemValue, Appended, Setting, UniqueItems;
    var i, key := r.current.value, (t.section.value, x.keyword);
    AppendedAlike(key.0, r.sections[i].items, r'.sections[i].items, x, y, t.loose, loose, apart);
    AppendedItems(r.sections[i].items, x);
    LooseElsewhere(t.loose, loose, key);
    forall name, keyword | (name, keyword) in loose
      ensures Setting(AddItem(r, x).sections, name, keyword).Some?
    {
      AddItemSetting(r, x, name, keyword);
    }
  }

  /** Two buffers over which no value that runs on behind the same front can be the same. */
  ghost predicate Apart(b: string, b': string) {
    |b| == |b'| && forall n :: 0 <= n < |b| ==> CStr(b[n..]) != CStr(b'[n..])
  }

  lemma ItemTwins(k: string, b: string, b': string, desc: string, apart: bool)
    requires |k| <= LINE_SIZE == |b| == |b'| && Terminated(k)
    requires apart ==> Apart(b, b')
    ensures var x, y := ItemOf(CStr(k), Over(k, b), desc), ItemOf(CStr(k), Over(k, b'), desc);
            x.keyword == KeywordOfLine(CStr(k)) && AlikeItem(x, y, RunsOut(k), apart)
  {
    hide KeywordEnd, CStr, Over, ItemOf, KeywordOfLine;
    ItemOver(k, b, desc);
    ItemOver(k, b', desc);
    if RunsOut(k) && apart {
      var front := k[KeywordEnd(CStr(k)) + 1..];
      assert (front + CStr(b[|k|..]))[|front|..] == CStr(b[|k|..]);
      assert (front + CStr(b'[|k|..]))[|front|..] == CStr(b'[|k|..]);
    }
  }

  lemma TakeTwins(r: Reader, r': Reader, t: Tracker, apart: bool, b: string, b': string, raw: string)
    requires ValidTracker(t) && Twins(r, r', t, apart) && |b| == |b'| == LINE_SIZE && |raw| < LINE_SIZE
    requires apart ==> Apart(b, b')
    ensures var k := KnownAfter(t.known, raw);
            && Terminated(Over(k, b)) && Terminated(Over(k, b'))
            && Twins(TakeLine(r, Over(k, b)), TakeLine(r', Over(k, b')), Track(t, raw), apart)
  {
    hide Over, KnownAfter, CStr, Terminated, RunsOut, HeaderName, IsHeader, OpenSection, AddItem, ItemOf, KeywordOfLine,
         UniqueStore, AlikeStores, AllPresent, Apart, AlikeItem;
    var k := KnownAfter(t.known, raw);
    var line := CStr(k);
    LineOver(k, b);
    LineOver(k, b');
    if line == "" {
    } else if IsHeader(line) {
      OpenTwins(r, r', t, apart, HeaderName(line));
    } else if r.current.None? || !IsItem(line) {
    } else {
      var x, y := ItemOf(line, Over(k, b), r.desc), ItemOf(line, Over(k, b'), r.desc);
      ItemTwins(k, b, b', r.desc, apart);
      AddTwins(r, r', t, apart, x, y, Track(t, raw).loose);
    }
  }

  lemma {:induction false} ReadTwins(text: string, r: Reader, r': Reader, t: Tracker, apart: bool, b: string, b': string)
    requires ValidTracker(t) && Twins(r, r', t, apart) && |b| == |b'| == LINE_SIZE
    requires apart ==> Apart(b, b')
    ensures var ss := ReadFrom(text, false, Over(t.known, b), r);
            && AlikeStores(ss, ReadFrom(text, false, Over(t.known, b'), r'), LooseFrom(text, t), apart)
            && AllPresent(ss, LooseFrom(text, t))
    decreases |text|
  {
    hide Scan, Filled, Over, TakeLine, Track, AlikeStores, AllPresent, Apart, KnownAfter;
    var s := Scan(text, "", LINE_SIZE - 1);
    FilledOver(t.known, b, s.raw);
    FilledOver(t.known, b', s.raw);
    TakeTwins(r, r', t, apart, b, b', s.raw);
    TrackKnown(t, s.raw);
    if !s.eof {
      var k := KnownAfter(t.known, s.raw);
      ReadTwins(s.rest, TakeLine(r, Over(k, b)), TakeLine(r', Over(k, b')), Track(t, s.raw), apart, b, b');
    }
  }

  lemma TrackKnown(t: Tracker, raw: string)
    requires ValidTracker(t) && |raw| < LINE_SIZE
    ensures Track(t, raw).known == KnownAfter(t.known, raw)
  {
  }

  lemma TextTwins(text: string, apart: bool, b: string, b': string)
    requires |b| == |b'| == LINE_SIZE && (apart ==> Apart(b, b'))
    ensures AlikeStores(ReadText(text, b), ReadText(text, b'), Loose(text), apart)
    ensures AllPresent(ReadText(text, b), Loose(text))
  {
    hide Apart;
    var r := Reader([], None, "");
    assert Over("", b) == b && Over("", b') == b';
    ReadTwins(text, r, r, Tracker("", None, {}), apart, b, b');
  }

  // ----- the exact condition --------------------------------------------------

  /** A buffer of letters and one of terminators. */
  lemma ApartBuffers() returns (b: string, b': string)
    ensures |b| == |b'| == LINE_SIZE && Apart(b, b')
  {
    b, b' := seq(LINE_SIZE, _ => 'A'), seq(LINE_SIZE, _ => NUL);
    forall n | 0 <= n < LINE_SIZE
      ensures CStr(b[n..]) != CStr(b'[n..])
    {
      assert b[n..][0] == 'A' && b'[n..][0] == NUL;
    }
  }

  /** A setting reads the same over any two buffers exactly when it is not among the loose
    ones. */
  lemma SettingExactly(text: string, name: string, keyword: string)
    ensures (forall b, b' :: |b| == |b'| == LINE_SIZE ==>
               Setting(ReadText(text, b), name, keyword) == Setting(ReadText(text, b'), name, keyword))
            <==> (name, keyword) !in Loose(text)
  {
    hide ReadText, Loose, Setting, AllPresent, AlikeStores, Apart;
    forall b, b' | |b| == |b'| == LINE_SIZE
      ensures (name, keyword) !in Loose(text) ==>
                Setting(ReadText(text, b), name, keyword) == Setting(ReadText(text, b'), name, keyword)
    {
      TextTwins(text, false, b, b');
      AlikeSetting(ReadText(text, b), ReadText(text, b'), Loose(text), false, name, keyword);
    }
    var b, b' := ApartBuffers();
    TextTwins(text, true, b, b');
    AlikeSetting(ReadText(text, b), ReadText(text, b'), Loose(text), true, name, keyword);
  }

  lemma AlikeIsEqual(ss: seq<Section>, ss': seq<Section>, apart: bool)
    requires AlikeStores(ss, ss', {}, apart)
    ensures ss == ss'
  {
    forall i | 0 <= i < |ss|
      ensures ss[i] == ss'[i]
    {
      assert AlikeItems(ss[i].name, ss[i].items, ss'[i].items, {}, apart);
      assert ss[i].items == ss'[i].items;
    }
  }

  /** `cfg_read` is a function of the file exactly when the file leaves no setting loose. */
  lemma ReadExactly(text: string)
    ensures (forall b, b' :: |b| == |b'| == LINE_SIZE ==> ReadText(text, b) == ReadText(text, b'))
            <==> Loose(text) == {}
  {
    hide ReadText, Loose, Setting, AllPresent, AlikeStores, Apart;
    if Loose(text) == {} {
      forall b, b' | |b| == |b'| == LINE_SIZE
        ensures ReadText(text, b) == ReadText(text, b')
      {
        TextTwins(text, false, b, b');
        AlikeIsEqual(ReadText(text, b), ReadText(text, b'), false);
      }
    } else {
      var key :| key in Loose(text);
      SettingExactly(text, key.0, key.1);
    }
  }

  /** Nothing is loose in a file whose items all have their own value. */
  lemma SelfContainedIsTight(text: string)
    requires AllSelfContained(text)
    ensures Loose(text) == {}
  {
    hide ReadText, Loose, AllSelfContained;
    forall b, b' | |b| == |b'| == LINE_SIZE
      ensures ReadText(text, b) == ReadText(text, b')
    {
      ReadIndependent(text, b, b');
    }
    ReadExactly(text);
  }

  // ----- an example -----------------------------------------------------------

  const BARE := "[A]\nKEYS\n"

  lemma BareItem(buffer: string)
    requires |buffer| == LINE_SIZE
    ensures var b := Filled(buffer, "KEYS");
            Terminated(b) && CStr(b) == "KEYS" && ItemOf("KEYS", b, "") == Item("KEYS", None, CStr(buffer[5..]))
  {
    hide Filled, Trim, CStr;
    var l := "KEYS";
    IndexOfIs(l, '=', 4);
    FilledLine(buffer, l);
    ValueWithoutEquals(l, buffer, "");
    assert l[..4] == l && Upper(l) == l;
    assert Trim(l) == l by { TrimOfText(l); }
  }

  /** A keyword without `=` behind the first header of a file takes over what the buffer
    held. */
  lemma BareKeyword(b: string)
    requires |b| == LINE_SIZE
    ensures ReadText(BARE, b) == [Section("A", [Item("KEYS", None, CStr(b[5..]))])]
  {
    hide ReadFrom, Filled, TakeLine, ItemOf, CStr;
    var header, l := "[A]", "KEYS";
    assert BARE == header + "\n" + (l + "\n");
    assert header == "[" + "A" + "]";
    var r := Reader([], None, "");
    ReadLine(header, l + "\n", b, r);
    TakeHeader([], "A", b);
    var b1 := Filled(b, header);
    var r1 := Open([], "A", [], "");
    assert l + "\n" == l + "\n" + "";
    ReadLine(l, "", b1, r1);
    BareItem(b1);
    TakeBare(Filled(b1, l), CStr(b1[5..]));
    ReadEnd(Filled(b1, l), TakeLine(r1, Filled(b1, l)));
    BehindHeader(b);
  }

  lemma BehindHeader(b: string)
    requires |b| == LINE_SIZE
    ensures Filled(b, "[A]")[5..] == b[5..]
  {
  }

  lemma TakeBare(b: string, value: string)
    requires Terminated(b) && CStr(b) == "KEYS" && |b| == LINE_SIZE && ItemOf("KEYS", b, "") == Item("KEYS", None, value)
    ensures TakeLine(Open([], "A", [], ""), b).sections == [Section("A", [Item("KEYS", None, value)])]
  {
    hide CStr, ItemOf, IndexOf, HeaderName, OpenSection, AddItem, Terminated;
    var r, item := Open([], "A", [], ""), Item("KEYS", None, value);
    AddFirst(r, item);
    assert !IsHeader("KEYS");
    assert TakeLine(r, b) == AddItem(r, ItemOf("KEYS", b, ""));
  }

  lemma AddFirst(r: Reader, item: Item)
    requires r == Open([], "A", [], "")
    ensures AddItem(r, item).sections == [Section("A", [item])]
  {
    assert FindItem([], item.keyword) == None;
    assert Appended([], item) == [item];
  }

  lemma BareSetting(b: string)
    requires |b| == LINE_SIZE
    ensures Setting(ReadText(BARE, b), "A", "KEYS") == Some(CStr(b[5..]))
  {
    hide ReadText, CStr, FindSection;
    BareKeyword(b);
    var item := Item("KEYS", None, CStr(b[5..]));
    SectionAt([Section("A", [item])], "A", 0);
    NewItemLookup(item, "KEYS");
  }

  /** So its setting is loose, and the file is read differently over different buffers. */
  lemma BareIsLoose(b: string, b': string)
    requires |b| == |b'| == LINE_SIZE
    ensures ReadText(BARE, b) == ReadText(BARE, b') <==> CStr(b[5..]) == CStr(b'[5..])
    ensures ("A", "KEYS") in Loose(BARE)
  {
    hide ReadText, CStr, Loose, Setting;
    BareKeyword(b);
    BareKeyword(b');
    BareSetting(b);
    BareSetting(b');
    var c, c' := ApartBuffers();
    BareSetting(c);
    BareSetting(c');
    SettingExactly(BARE, "A", "KEYS");
  }
}
