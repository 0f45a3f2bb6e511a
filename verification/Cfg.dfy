/** The configuration file functions, over a file that is read and written in order. */
module Cfg {
  import opened CString
  import opened Wrappers
  import opened CfgModel

  /** A stdio stream: what is left to read, the end-of-file flag, what was written. */
  class File {
    var rest: string
    var eof: bool
    var written: string

    constructor (content: string)
      ensures rest == content && !eof && written == ""
    {
      rest, eof, written := content, false, "";
    }

    /** `fgetc`; only an attempt to read past the end sets the flag. */
    method Getc() returns (c: Option<char>)
      modifies this`rest, this`eof
      ensures old(rest) == "" ==> c == None && eof && rest == ""
      ensures old(rest) != "" ==> c == Some(old(rest)[0]) && rest == old(rest)[1..] && eof == old(eof)
    {
      if rest == "" {
        eof := true;
        return None;
      }
      c := Some(rest[0]);
      rest := rest[1..];
    }

    method Print(s: string)
      modifies this`written
      ensures written == old(written) + s
    {
      written := written + s;
    }
  }

  // ----- one line -----------------------------------------------------------

  lemma ScanStep(text: string, raw: string, room: nat)
    requires |raw| <= room && 0 < room
    ensures text == "" ==> Scan(text, raw, room) == Scanned(raw, "", true)
    ensures text != "" ==> var c, rest := text[0], text[1..];
            Scan(text, raw, room) ==
            if !IsAscii(c) then Scan(rest, raw, room)
            else if c == NEWLINE then Scanned(raw, rest, false)
            else if raw == [] then Scan(rest, if IsSpace(c) then [] else [c], room)
            else if |raw| < room then Scan(rest, raw + [c], room)
            else Scanned(raw, rest, false)
  {
  }

  /** The line buffer while a line is stored over the old content. */
  ghost predicate Stored(line: seq<char>, raw: string, base: string) {
    |raw| <= |base| && line == raw + base[|raw|..]
  }

  lemma NothingStored(base: string)
    ensures Stored(base, "", base)
  {
  }

  /** `*ptr++ = ch` */
  method Store(line: array<char>, ptr: nat, c: char, ghost raw: string, ghost base: string) returns (next: nat)
    requires Stored(line[..], raw, base) && ptr == |raw| < line.Length
    modifies line
    ensures Stored(line[..], raw + [c], base) && next == ptr + 1
  {
    line[ptr] := c;
    next := ptr + 1;
  }

  /** `_readline` */
  method ReadLine(line: array<char>, size: nat, fp: File) returns (ok: bool)
    requires 2 <= size <= line.Length
    modifies line, fp`rest, fp`eof
    ensures ok <==> !old(fp.eof)
    ensures !ok ==> line[..] == old(line[..]) && fp.rest == old(fp.rest) && fp.eof
    ensures ok ==> var s := Scan(old(fp.rest), "", size - 1);
                   line[..] == Filled(old(line[..]), s.raw) && fp.rest == s.rest && fp.eof == s.eof
  {
    if fp.eof {
      return false;
    }
    hide Scan, Stored, Filled, TrimEnd;
    var ptr, lineEnd, haveStart := 0, size - 1, false;
    line[0] := NUL;
    ghost var base, raw: string := line[..], "";
    ghost var scanned := Scan(fp.rest, "", lineEnd);
    NothingStored(base);
    while true
      invariant ptr == |raw| <= lineEnd && haveStart == (raw != "") && (raw != "" ==> !IsSpace(raw[0]))
      invariant Stored(line[..], raw, base)
      invariant Scan(fp.rest, raw, lineEnd) == scanned && !fp.eof
      decreases |fp.rest|
    {
      ScanStep(fp.rest, raw, lineEnd);
      var ch := fp.Getc();
      if ch.None? {
        break;
      }
      var c := ch.value;
      if !IsAscii(c) {
        continue;
      }
      if c == NEWLINE {
        break;
      }
      if haveStart {
        if ptr < lineEnd {
          ptr := Store(line, ptr, c, raw, base);
          raw := raw + [c];
        } else {
          break;
        }
      } else if !IsSpace(c) {
        haveStart := true;
        ptr := Store(line, ptr, c, raw, base);
        assert raw + [c] == [c];
        raw := [c];
      }
    }
    assert scanned == Scanned(raw, fp.rest, fp.eof);
    Finished(old(line[..]), base, line[..], raw);
    if ptr > 0 {
      ptr := TrimmedEnd(line, ptr, raw);
      line[ptr] := NUL;
    }
    return true;
  }

  lemma Finished(before: seq<char>, base: string, line: seq<char>, raw: string)
    requires |before| > 0 && base == before[0 := NUL] && |raw| < |base| && Stored(line, raw, base)
    ensures |line| == |before| && line[..|raw|] == raw
    ensures line[|TrimEnd(raw)| := NUL] == Filled(before, raw)
    ensures raw == "" ==> line == Filled(before, raw)
  {
  }

  /** The end of the stored line without the spaces in front of it. */
  method TrimmedEnd(line: array<char>, end: nat, ghost raw: string) returns (ptr: nat)
    requires 0 < end == |raw| <= line.Length && line[..end] == raw && !IsSpace(raw[0])
    ensures ptr == |TrimEnd(raw)|
  {
    ptr := end;
    assert raw[..end] == raw;
    while IsSpace(line[ptr - 1])
      invariant 0 < ptr <= end && TrimEnd(raw[..ptr]) == TrimEnd(raw)
      decreases ptr
    {
      assert raw[..ptr][..ptr - 1] == raw[..ptr - 1];
      assert raw[..ptr][ptr - 1] == raw[ptr - 1] == line[..end][ptr - 1] == line[ptr - 1];
      ptr := ptr - 1;
    }
    assert raw[..ptr][ptr - 1] == raw[ptr - 1] == line[..end][ptr - 1] == line[ptr - 1];
  }

  // ----- the store ----------------------------------------------------------

  /** `toupper` over a C string, into a buffer of `size` bytes. */
  method UpperCase(s: string, size: nat) returns (r: string)
    requires |s| < size
    ensures r == Upper(s)
  {
    r := "";
    for x := 0 to |s|
      invariant r == Upper(s[..x])
    {
      assert s[..x + 1] == s[..x] + [s[x]];
      r := r + [ToUpper(s[x])];
    }
    assert s[..|s|] == s;
  }

  lemma UpperTwice(s: string)
    ensures Upper(Upper(s)) == Upper(s)
  {
  }

  class Info {
    var sections: seq<Section>

    constructor ()
      ensures sections == []
    {
      sections := [];
    }

    /** `cfg_get_section`; a section is handed out by its place in the list. */
    method GetSection(name: string) returns (r: Option<nat>)
      requires |name| < NAME_SIZE
      ensures r == FindSection(sections, Upper(name))
    {
      var secName := UpperCase(name, NAME_SIZE);
      for i := 0 to |sections|
        invariant forall k :: 0 <= k < i ==> sections[k].name != secName
      {
        if sections[i].name == secName {
          SectionAt(sections, secName, i);
          return Some(i);
        }
      }
      return None;
    }

    /** `cfg_create_section` */
    method CreateSection(name: string) returns (r: nat)
      requires |name| < NAME_SIZE
      modifies this
      ensures r == |old(sections)| && sections == old(sections) + [Section(Upper(name), [])]
    {
      var secName := UpperCase(name, NAME_SIZE);
      r := |sections|;
      sections := sections + [Section(secName, [])];
    }

    /** `_cfg_get_item` */
    method LookupItem(section: nat, keyword: string) returns (r: Option<nat>)
      requires section < |sections|
      ensures r == FindItem(sections[section].items, keyword)
    {
      var items := sections[section].items;
      for i := 0 to |items|
        invariant forall k :: 0 <= k < i ==> items[k].keyword != keyword
      {
        if items[i].keyword == keyword {
          FoundAt(items, keyword, i);
          return Some(i);
        }
      }
      return None;
    }

    /** `cfg_get_item` */
    method Get(name: string, keyword: string) returns (r: Option<string>)
      requires |name| < NAME_SIZE && |keyword| < KEYWORD_SIZE
      ensures r == GetItem(sections, name, keyword)
    {
      var section := GetSection(name);
      if section.None? {
        return None;
      }
      var itemName := UpperCase(keyword, KEYWORD_SIZE);
      var item := LookupItem(section.value, itemName);
      if item.None? {
        return None;
      }
      return Some(sections[section.value].items[item.value].value);
    }

    /** `cfg_set_item`; its keyword buffer is one byte shorter than the others. */
    method Set(name: string, keyword: string, desc: Option<string>, value: string)
      requires |name| < NAME_SIZE && |keyword| < KEYWORD_SIZE - 1
      modifies this
      ensures sections == SetItem(old(sections), name, Item(keyword, desc, value))
    {
      var found := GetSection(name);
      var section: nat;
      if found.None? {
        section := CreateSection(name);
      } else {
        section := found.value;
      }
      var itemName := UpperCase(keyword, KEYWORD_SIZE - 1);
      var place := LookupItem(section, itemName);
      var items := sections[section].items;
      if place.Some? {
        var item := items[place.value].(value := value);
        if desc.Some? {
          item := item.(desc := desc);
        }
        items := items[place.value := item];
      } else {
        items := items + [Item(itemName, desc, value)];
      }
      sections := sections[section := sections[section].(items := items)];
      assert found.Some? ==> items == Replaced(old(sections[found.value].items), Item(itemName, desc, value));
      if found.None? {
        assert sections[section].items == [Item(itemName, desc, value)];
        LastReplaced(old(sections), Section(Upper(name), []), sections[section]);
      }
    }

    /** `cfg_write` */
    method Write(fp: File)
      modifies fp`written
      ensures fp.written == old(fp.written) + StoreText(sections)
    {
      for i := 0 to |sections|
        invariant fp.written + StoreText(sections[i..]) == old(fp.written) + StoreText(sections)
      {
        hide SectionText;
        assert sections[i..][0] == sections[i] && sections[i..][1..] == sections[i + 1..];
        Concat3(fp.written, SectionText(sections[i]), StoreText(sections[i + 1..]));
        WriteSection(sections[i], fp);
      }
      assert sections[|sections|..] == [];
      assert fp.written + "" == fp.written;
    }

    method WriteSection(section: Section, fp: File)
      modifies fp`written
      ensures fp.written == old(fp.written) + SectionText(section)
    {
      var items := section.items;
      fp.Print("[" + section.name + "]\n");
      ghost var before := fp.written;
      for i := 0 to |items|
        invariant fp.written + ItemsText(items[i..]) == before + ItemsText(items)
      {
        hide ItemText;
        assert items[i..][0] == items[i] && items[i..][1..] == items[i + 1..];
        Concat3(fp.written, ItemText(items[i]), ItemsText(items[i + 1..]));
        WriteItem(items[i], fp);
      }
      assert items[|items|..] == [];
      assert fp.written + "" == fp.written;
      Concat3(before, ItemsText(items), "\n");
      Concat3(old(fp.written), "[" + section.name + "]\n", ItemsText(items) + "\n");
      fp.Print("\n");
    }

    method WriteItem(item: Item, fp: File)
      modifies fp`written
      ensures fp.written == old(fp.written) + ItemText(item)
    {
      if item.desc.Some? {
        var d := item.desc.value;
        if Peek(d) != ';' {
          fp.Print(";");
          assert (old(fp.written) + ";") + (d + "\n") == old(fp.written) + ((";" + d) + "\n");
        } else {
          assert old(fp.written) + (d + "\n") == old(fp.written) + (("" + d) + "\n");
        }
        fp.Print(d + "\n");
      }
      assert fp.written == old(fp.written) + DescText(item.desc);
      Concat3(old(fp.written), DescText(item.desc), ItemLine(item) + "\n");
      fp.Print(item.keyword + "=" + item.value + "\n");
    }
  }

  lemma LastReplaced<T>(s: seq<T>, x: T, y: T)
    ensures (s + [x])[|s| := y] == s + [y]
  {
  }

  lemma Concat3(a: string, b: string, c: string)
    ensures a + (b + c) == (a + b) + c
  {
  }

  // ----- reading ------------------------------------------------------------

  /** The name between the brackets, at most 63 characters of it. */
  method SectionName(line: string, end: nat) returns (name: string)
    requires IsHeader(line) && end == IndexOf(line, ']')
    ensures name == HeaderName(line)
  {
    name := "";
    var ptr := 1;
    while ptr < end
      invariant 1 <= ptr <= end && ptr < NAME_SIZE && name == Upper(line[1..ptr])
    {
      assert line[1..ptr + 1] == line[1..ptr] + [line[ptr]];
      name := name + [ToUpper(line[ptr])];
      ptr := ptr + 1;
      assert name == Upper(line[1..ptr]);
      if |name| > NAME_SIZE - 2 {
        break;
      }
    }
    assert ptr == Min(end, NAME_SIZE);
  }

  /** The characters in front of `=`, at most 63 of them. */
  method ItemKeyword(line: string) returns (keyword: string, ptr: nat)
    ensures ptr == KeywordEnd(line) && keyword == Upper(line[..ptr])
  {
    keyword, ptr := "", 0;
    while ptr < |line| && line[ptr] != '='
      invariant ptr <= IndexOf(line, '=') && ptr < KEYWORD_SIZE - 1 && keyword == Upper(line[..ptr])
    {
      assert line[..ptr + 1] == line[..ptr] + [line[ptr]];
      keyword := keyword + [ToUpper(line[ptr])];
      ptr := ptr + 1;
      assert keyword == Upper(line[..ptr]) && ptr <= IndexOf(line, '=');
      if |keyword| > KEYWORD_SIZE - 2 {
        break;
      }
    }
    assert ptr == Min(IndexOf(line, '='), KEYWORD_SIZE - 1);
  }

  /** What one line does to the store, the open section and the pending comment. */
  method ProcessLine(info: Info, line: array<char>, section: Option<nat>, desc: string)
    returns (section': Option<nat>, desc': string)
    requires line.Length == LINE_SIZE && Terminated(line[..])
    requires ValidReader(Reader(info.sections, section, desc))
    modifies info
    ensures Reader(info.sections, section', desc') == TakeLine(Reader(old(info.sections), section, desc), line[..])
  {
    hide IsHeader, HeaderName, KeywordEnd, Trim, CStr;
    section', desc' := section, desc;
    var text := CStr(line[..]);
    if |text| == 0 {
      section' := None;
    } else if IsHeader(text) {
      HeaderMeaning(text);
      var name := SectionName(text, IndexOf(text, ']'));
      section' := info.GetSection(name);
      if section'.None? {
        var created := info.CreateSection(name);
        section' := Some(created);
      }
      desc' := "";
    } else if section.None? {
    } else if text[0] == ';' || text[0] == '#' {
      desc' := text;
    } else {
      var keyword, ptr := ItemKeyword(text);
      var item := Item(Trim(keyword), if desc == "" then None else Some(desc), CStr(line[ptr + 1..]));
      assert line[..][ptr + 1..] == line[ptr + 1..];
      assert item == ItemOf(text, line[..], desc);
      AddTo(info, section.value, item);
      desc' := "";
    }
  }

  /** The header test has to find the bracket it starts with, and the name is kept in
    upper case. */
  lemma HeaderMeaning(text: string)
    requires IsHeader(text)
    ensures IndexOf(text, ']') < |text|
    ensures Upper(HeaderName(text)) == HeaderName(text)
  {
    hide Upper, IndexOf;
    UpperTwice(text[1..Min(IndexOf(text, ']'), NAME_SIZE)]);
  }

  /** An item of the same keyword is deleted before the new one is added. */
  method AddTo(info: Info, section: nat, item: Item)
    requires section < |info.sections|
    modifies info
    ensures info.sections == AddItem(Reader(old(info.sections), Some(section), ""), item).sections
  {
    var items := info.sections[section].items;
    var previous := info.LookupItem(section, item.keyword);
    if previous.Some? {
      items := items[..previous.value] + items[previous.value + 1..];
    }
    items := items + [item];
    info.sections := info.sections[section := info.sections[section].(items := items)];
  }

  /** `cfg_read`. The line buffer is not initialised, so its first content is free. */
  method Read(fp: File) returns (info: Info, ghost buffer: string)
    requires !fp.eof
    modifies fp`rest, fp`eof
    ensures fresh(info) && |buffer| == LINE_SIZE
    ensures info.sections == ReadText(old(fp.rest), buffer)
  {
    hide Scan, TakeLine, Filled;
    info := new Info();
    var line := new char[LINE_SIZE];
    buffer := line[..];
    ghost var result := ReadText(fp.rest, buffer);
    var section: Option<nat>, desc := None, "";
    ghost var before := buffer;
    var ok := ReadLine(line, LINE_SIZE, fp);
    FilledTerminated(before, Scan(old(fp.rest), "", LINE_SIZE - 1).raw);
    while ok
      invariant ValidReader(Reader(info.sections, section, desc)) && Terminated(line[..])
      invariant !ok ==> fp.eof
      invariant var r := Reader(info.sections, section, desc);
                ReadFrom(fp.rest, fp.eof, line[..], if ok then TakeLine(r, line[..]) else r) == result
      decreases |fp.rest|, !fp.eof, ok
    {
      section, desc := ProcessLine(info, line, section, desc);
      before := line[..];
      ghost var text := fp.rest;
      ok := ReadLine(line, LINE_SIZE, fp);
      if ok {
        FilledTerminated(before, Scan(text, "", LINE_SIZE - 1).raw);
      }
    }
  }
}
