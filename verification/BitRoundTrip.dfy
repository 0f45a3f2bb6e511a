/** A bit mask survives being shown as names and read back, as text or through a JSON
  array. */
module BitRoundTrip {
  import opened CString
  import opened Wrappers
  import opened Libc
  import opened BitNames
  import opened BitDisplay
  import opened JsonValue
  import opened JsonParser
  import JsonText
  import JsonPrinter
  import JsonAcceptance
  import JsonRoundTrip

  // ----- tokens -------------------------------------------------------------

  /** A separator splits the list. */
  lemma {:induction false} TokensSplit(a: string, c: char, b: string)
    requires IsSeparator(c)
    ensures Tokens(a + [c] + b) == Tokens(a) + Tokens(b)
    decreases |a|
  {
    hide Tokens, IsSeparator, TokenLength;
    var s := a + [c] + b;
    if a == [] {
      assert s[1..] == b;
      SeparatorFirst(s);
      NoTokens();
    } else if IsSeparator(a[0]) {
      MiddleSlices(a, c, b, 1);
      SeparatorFirst(s);
      SeparatorFirst(a);
      TokensSplit(a[1..], c, b);
    } else {
      var n := TokenLength(a);
      TokenStops(a, c, b);
      FirstToken(s);
      FirstToken(a);
      MiddleSlices(a, c, b, n);
      TokensSplit(a[n..], c, b);
    }
  }

  lemma NoTokens()
    ensures Tokens("") == []
  {
  }

  lemma MiddleSlices(a: string, c: char, b: string, n: nat)
    requires n <= |a|
    ensures (a + [c] + b)[..n] == a[..n] && (a + [c] + b)[n..] == a[n..] + [c] + b
  {
  }

  lemma SeparatorFirst(s: string)
    requires s != [] && IsSeparator(s[0])
    ensures Tokens(s) == Tokens(s[1..])
  {
  }

  lemma {:induction false} TokenStops(a: string, c: char, b: string)
    requires IsSeparator(c)
    ensures TokenLength(a + [c] + b) == TokenLength(a)
  {
    var s := a + [c] + b;
    if a != [] && !IsSeparator(a[0]) {
      assert s[0] == a[0] && s[1..] == a[1..] + [c] + b;
      TokenStops(a[1..], c, b);
    }
  }

  lemma FirstToken(s: string)
    requires s != [] && !IsSeparator(s[0])
    ensures var n := TokenLength(s);
            n > 0 && Tokens(s) == [s[..n]] + Tokens(s[n..])
  {
    assert SkipSeparators(s) == s;
  }

  predicate Unbroken(name: string) {
    name != "" && forall i :: 0 <= i < |name| ==> !IsSeparator(name[i])
  }

  lemma OneToken(name: string)
    requires Unbroken(name)
    ensures Tokens(name) == [name]
  {
    FirstToken(name);
    assert TokenLength(name) == |name|;
    assert name[..|name|] == name && name[|name|..] == [];
  }

  predicate AllUnbroken(names: seq<string>) {
    forall i :: 0 <= i < |names| ==> Unbroken(names[i])
  }

  /** The plain display is split into the names again, whatever separates them. */
  lemma {:induction false} TokensJoined(sep: char, names: seq<string>)
    requires IsSeparator(sep) && AllUnbroken(names)
    ensures Tokens(Joined(Format([sep], false), names)) == names
    decreases |names|
  {
    hide Tokens, Unbroken;
    if names == [] {
      NoTokens();
    } else {
      OneToken(names[0]);
      if |names| > 1 {
        TokensSplit(names[0], sep, Joined(Format([sep], false), names[1..]));
        TokensJoined(sep, names[1..]);
      }
    }
  }

  // ----- only the names matter ----------------------------------------------

  /** The mask of a token; none for an unknown one. */
  function TokenMask(bits: seq<Bit>, token: string): bv16 {
    match Find(bits, Clip(token))
    case None => 0
    case Some(m) => m
  }

  function Union(bits: seq<Bit>, tokens: seq<string>): bv16 {
    if tokens == [] then 0 else Or(TokenMask(bits, tokens[0]), Union(bits, tokens[1..]))
  }

  predicate AllKnown(bits: seq<Bit>, tokens: seq<string>) {
    forall i :: 0 <= i < |tokens| ==> Find(bits, Clip(tokens[i])).Some?
  }

  lemma {:induction false} MaskOfIsUnion(bits: seq<Bit>, tokens: seq<string>, mask: bv16)
    ensures MaskOf(bits, tokens, mask) ==
            if AllKnown(bits, tokens) then Some(Or(mask, Union(bits, tokens))) else None
    decreases |tokens|
  {
    hide Or, Find;
    if tokens == [] {
      OrAbsorbs(mask);
    } else {
      var rest := tokens[1..];
      if Find(bits, Clip(tokens[0])).Some? {
        var m := TokenMask(bits, tokens[0]);
        MaskOfIsUnion(bits, rest, Or(mask, m));
        OrAssociates(mask, m, Union(bits, rest));
        assert tokens == [tokens[0]] + rest;
      }
    }
  }

  lemma {:induction false} UnionAbsorbs(bits: seq<Bit>, token: string, tokens: seq<string>)
    requires token in tokens
    ensures Or(TokenMask(bits, token), Union(bits, tokens)) == Union(bits, tokens)
    decreases |tokens|
  {
    hide Or, TokenMask;
    var m, first, rest := TokenMask(bits, token), TokenMask(bits, tokens[0]), Union(bits, tokens[1..]);
    if token == tokens[0] {
      OrAssociates(m, m, rest);
      OrAbsorbs(m);
    } else {
      UnionAbsorbs(bits, token, tokens[1..]);
      OrAssociates(m, first, rest);
      OrCommutes(m, first);
      OrAssociates(first, m, rest);
    }
  }

  /** Spelling: the names of a list in upper case. */
  predicate Mentions(tokens: seq<string>, token: string) {
    exists i :: 0 <= i < |tokens| && SameName(tokens[i], token)
  }

  predicate Covers(tokens: seq<string>, others: seq<string>) {
    forall i :: 0 <= i < |others| ==> Mentions(tokens, others[i])
  }

  lemma {:induction false} FindIgnoresCase(bits: seq<Bit>, a: string, b: string)
    requires SameName(a, b)
    ensures Find(bits, a) == Find(bits, b)
  {
    if bits != [] {
      FindIgnoresCase(bits[1..], a, b);
    }
  }

  lemma ClipIgnoresCase(a: string, b: string)
    requires SameName(a, b)
    ensures SameName(Clip(a), Clip(b))
  {
    assert |Upper(a)| == |a| && |Upper(b)| == |b|;
    forall i | 0 <= i < |Clip(a)|
      ensures ToUpper(Clip(a)[i]) == ToUpper(Clip(b)[i])
    {
      assert Upper(a)[i] == Upper(b)[i];
    }
  }

  lemma SameToken(bits: seq<Bit>, a: string, b: string)
    requires SameName(a, b)
    ensures Find(bits, Clip(a)) == Find(bits, Clip(b)) && TokenMask(bits, a) == TokenMask(bits, b)
  {
    hide Clip, Find, SameName;
    ClipIgnoresCase(a, b);
    FindIgnoresCase(bits, Clip(a), Clip(b));
  }

  lemma {:induction false} CoveredUnion(bits: seq<Bit>, tokens: seq<string>, others: seq<string>)
    requires Covers(tokens, others)
    ensures Or(Union(bits, others), Union(bits, tokens)) == Union(bits, tokens)
    ensures AllKnown(bits, tokens) ==> AllKnown(bits, others)
    decreases |others|
  {
    hide Or, TokenMask, Find, SameName, Clip;
    var whole := Union(bits, tokens);
    if others == [] {
      OrAbsorbs(whole);
    } else {
      var rest := others[1..];
      forall i | 0 <= i < |rest|
        ensures Mentions(tokens, rest[i])
      {
        assert rest[i] == others[i + 1];
      }
      CoveredUnion(bits, tokens, rest);
      assert Mentions(tokens, others[0]);
      var k :| 0 <= k < |tokens| && SameName(tokens[k], others[0]);
      SameToken(bits, tokens[k], others[0]);
      UnionAbsorbs(bits, tokens[k], tokens);
      OrAssociates(TokenMask(bits, others[0]), Union(bits, rest), whole);
      assert others == [others[0]] + rest;
    }
  }

  /** Two lists that mention the same names mean the same, whatever their order,
    spelling, repetitions and separators. */
  lemma OnlyNamesMatter(v: string, w: string, bits: seq<Bit>)
    requires SkipSpace(v) != "" && SkipSpace(w) != "" && !IsNumber(SkipSpace(v)) && !IsNumber(SkipSpace(w))
    requires Covers(Tokens(v), Tokens(w)) && Covers(Tokens(w), Tokens(v))
    ensures Parse(v, bits) == Parse(w, bits)
  {
    hide Tokens, Union, Or, Covers, AllKnown, Find, IsNumber, MaskOf;
    TokensSkipSpace(v);
    TokensSkipSpace(w);
    var s, t := Tokens(v), Tokens(w);
    MaskOfIsUnion(bits, s, 0);
    MaskOfIsUnion(bits, t, 0);
    CoveredUnion(bits, s, t);
    CoveredUnion(bits, t, s);
    OrCommutes(Union(bits, s), Union(bits, t));
  }

  lemma {:induction false} TokensSkipSpace(s: string)
    ensures Tokens(SkipSpace(s)) == Tokens(s)
  {
    if s != [] && IsSpace(s[0]) {
      TokensSkipSpace(s[1..]);
    }
  }

  // ----- masks and tables ---------------------------------------------------

  function And(a: bv16, b: bv16): bv16 {
    a & b
  }

  lemma AndOr(a: bv16, b: bv16, c: bv16)
    ensures And(a, Or(b, c)) == Or(And(a, b), And(a, c))
  {
  }

  predicate SingleBit(m: bv16) {
    m != 0 && m & (m - 1) == 0
  }

  lemma SingleBitHit(val: bv16, m: bv16)
    requires SingleBit(m)
    ensures And(val, m) == if Hits(val, m) then m else 0
  {
  }

  function AllMasks(bits: seq<Bit>): bv16 {
    if bits == [] then 0 else Or(bits[0].mask, AllMasks(bits[1..]))
  }

  predicate PlainChar(c: char) {
    ' ' < c < '\U{7F}' && c != ',' && c != '|' && c != '+' && c != '\"' && c != '\\'
  }

  /** A name that starts with a letter, plain throughout, shorter than its buffer by at
    least one. */
  predicate GoodName(name: string) {
    0 < |name| < LABEL_SIZE - 1 && IsLetter(name[0]) && forall i :: 0 <= i < |name| ==> PlainChar(name[i])
  }

  predicate GoodTable(bits: seq<Bit>) {
    && (forall i :: 0 <= i < |bits| ==> GoodName(bits[i].name) && SingleBit(bits[i].mask))
    && (forall i, j :: 0 <= i < j < |bits| ==> !SameName(bits[i].name, bits[j].name))
  }

  lemma {:induction false} FindEntry(bits: seq<Bit>, i: nat)
    requires i < |bits| && forall k :: 0 <= k < i ==> !SameName(bits[k].name, bits[i].name)
    ensures Find(bits, bits[i].name) == Some(bits[i].mask)
    decreases |bits|
  {
    if i > 0 {
      FindEntry(bits[1..], i - 1);
    }
  }

  /** A cut label is never taken for another name: a token means an entry only if it is
    that entry's name. */
  lemma TruncationHarmless(bits: seq<Bit>, token: string)
    requires forall i :: 0 <= i < |bits| ==> |bits[i].name| < LABEL_SIZE - 1
    ensures Find(bits, Clip(token)) == Find(bits, token)
    ensures Find(bits, token).Some? ==> |token| < LABEL_SIZE - 1
  {
    if |token| >= LABEL_SIZE - 1 {
      forall i | 0 <= i < |bits|
        ensures !SameName(bits[i].name, Clip(token)) && !SameName(bits[i].name, token)
      {
        assert |Upper(bits[i].name)| < |Upper(Clip(token))| <= |Upper(token)|;
      }
    }
  }

  /** A longer name cannot be found when cut, or is found in tokens that only start
    like it. */
  lemma TruncationHarmful(bits: seq<Bit>, i: nat)
    requires i < |bits| && |bits[i].name| >= LABEL_SIZE - 1
    ensures exists token :: Find(bits, Clip(token)) != Find(bits, token)
  {
    hide SameName;
    var name := bits[i].name;
    var front := name[..LABEL_SIZE - 1];
    var long := LongToken(bits, front);
    assert Clip(long) == front && Clip(name) == front;
    if Find(bits, front).Some? {
      assert Find(bits, Clip(long)) != Find(bits, long);
    } else {
      SameSelf(name);
      assert Find(bits, name).Some?;
      assert Find(bits, Clip(name)) != Find(bits, name);
    }
  }

  lemma SameSelf(name: string)
    ensures SameName(name, name)
  {
  }

  /** A token that starts like `front` and is longer than every name. */
  lemma LongToken(bits: seq<Bit>, front: string) returns (token: string)
    requires |front| == LABEL_SIZE - 1
    ensures |token| >= LABEL_SIZE && token[..LABEL_SIZE - 1] == front
    ensures Find(bits, token).None?
  {
    token := front + seq(Weight(bits) + 1, _ => 'x');
    forall i | 0 <= i < |bits|
      ensures !SameName(bits[i].name, token)
    {
      NameWeight(bits, i);
      assert |Upper(bits[i].name)| < |Upper(token)|;
    }
  }

  lemma {:induction false} NameWeight(bits: seq<Bit>, i: nat)
    requires i < |bits|
    ensures |bits[i].name| <= Weight(bits)
  {
    if i > 0 {
      NameWeight(bits[1..], i - 1);
    }
  }

  /** Cutting tokens to the label buffer makes no difference, whatever the token, exactly
    when every name of the table has at most 30 characters. */
  lemma TruncationExactly(bits: seq<Bit>)
    ensures (forall token :: Find(bits, Clip(token)) == Find(bits, token)) <==>
            forall i :: 0 <= i < |bits| ==> |bits[i].name| <= 30
  {
    hide Find, Clip;
    if forall i :: 0 <= i < |bits| ==> |bits[i].name| < LABEL_SIZE - 1 {
      forall token
        ensures Find(bits, Clip(token)) == Find(bits, token)
      {
        TruncationHarmless(bits, token);
      }
    } else {
      var i :| 0 <= i < |bits| && |bits[i].name| >= LABEL_SIZE - 1;
      TruncationHarmful(bits, i);
    }
  }

  /** The names shown for a mask stand for the mask within the table. */
  lemma {:induction false} NamesMask(val: bv16, bits: seq<Bit>, from: nat, mask: bv16)
    requires GoodTable(bits) && from <= |bits|
    ensures MaskOf(bits, Names(val, bits[from..]), mask) == Some(Or(mask, And(val, AllMasks(bits[from..]))))
    decreases |bits| - from
  {
    hide Or, And, Find, SingleBit, SameName, GoodName, Clip;
    if from == |bits| {
      assert bits[from..] == [];
      AndZero(val);
      OrAbsorbs(mask);
    } else {
      var m, rest := bits[from].mask, AllMasks(bits[from + 1..]);
      assert bits[from..][1..] == bits[from + 1..];
      NamesStep(val, bits, from);
      SingleBitHit(val, m);
      AndOr(val, m, rest);
      OrAssociates(mask, And(val, m), And(val, rest));
      if Hits(val, m) {
        FindEntry(bits, from);
        ShortClip(bits[from].name);
        assert ([bits[from].name] + Names(val, bits[from + 1..]))[1..] == Names(val, bits[from + 1..]);
        NamesMask(val, bits, from + 1, Or(mask, m));
      } else {
        assert [] + Names(val, bits[from + 1..]) == Names(val, bits[from + 1..]);
        OrAbsorbs(mask);
        NamesMask(val, bits, from + 1, mask);
      }
    }
  }

  lemma AndZero(a: bv16)
    ensures And(a, 0) == 0
  {
  }

  lemma ShortClip(name: string)
    requires GoodName(name)
    ensures Clip(name) == name
  {
  }

  lemma {:induction false} NamesGood(val: bv16, bits: seq<Bit>)
    requires forall i :: 0 <= i < |bits| ==> GoodName(bits[i].name)
    ensures forall n :: n in Names(val, bits) ==> GoodName(n)
    ensures Names(val, bits) == [] <==> forall i :: 0 <= i < |bits| ==> !Hits(val, bits[i].mask)
    decreases |bits|
  {
    hide GoodName, Hits;
    if bits != [] {
      var rest := bits[1..];
      assert bits == [bits[0]] + rest;
      NamesGood(val, rest);
    }
  }

  lemma GoodNameIsUnbroken(name: string)
    requires GoodName(name)
    ensures Unbroken(name) && name != "" && IsLetter(name[0]) && NulFree(name)
  {
  }

  // ----- the text round trip ------------------------------------------------

  lemma NotANumber(s: string)
    requires s != "" && IsLetter(s[0])
    ensures SkipSpace(s) == s && !IsNumber(s)
  {
    assert DigitRun(s, 10) == 0;
    assert s[0..] == s;
  }

  lemma JoinedStarts(fmt: Format, names: seq<string>)
    requires !fmt.quoted && names != [] && names[0] != ""
    ensures var t := Joined(fmt, names);
            t != "" && t[0] == names[0][0]
  {
  }

  /** Good names, joined by any separator, are read as the union of their masks. */
  lemma ParseJoined(sep: char, names: seq<string>, bits: seq<Bit>)
    requires IsSeparator(sep) && names != [] && forall n :: n in names ==> GoodName(n)
    ensures Parse(Joined(Format([sep], false), names), bits) == MaskOf(bits, names, 0)
  {
    hide Joined, Tokens, MaskOf, GoodName, IsNumber, Unbroken;
    forall i | 0 <= i < |names|
      ensures Unbroken(names[i]) && names[i] != ""
    {
      assert names[i] in names;
      GoodNameIsUnbroken(names[i]);
    }
    var text := Joined(Format([sep], false), names);
    assert names[0] in names;
    GoodNameIsUnbroken(names[0]);
    JoinedStarts(Format([sep], false), names);
    NotANumber(text);
    TokensJoined(sep, names);
  }

  /** Whether all names of a mask fit the display together. */
  predicate FitsDisplay(val: bv16, bits: seq<Bit>, fmt: Format) {
    |Joined(fmt, Names(val, bits))| < STR_SIZE
  }

  lemma JoinedNone(fmt: Format)
    ensures Joined(fmt, []) == ""
  {
  }

  lemma DisplayIsJoin(val: bv16, bits: seq<Bit>, fmt: Format)
    requires GoodTable(bits) && FitsDisplay(val, bits, fmt)
    ensures AddedAll(fmt, STR_SIZE, "", Names(val, bits)) == Joined(fmt, Names(val, bits))
  {
    hide Joined, GoodName, SingleBit, SameName;
    NamesGood(val, bits);
    var names := Names(val, bits);
    AllGoodNonEmpty(names);
    assert [] + names == names;
    JoinedNone(fmt);
    KeptAll(fmt, STR_SIZE, [], names);
    AddedAllIsJoin(fmt, STR_SIZE, [], names);
  }

  /** A mask with some bit in the table, shown as text and parsed, is the mask within
    the table. */
  lemma TextRoundTrip(val: bv16, bits: seq<Bit>, sep: char)
    requires GoodTable(bits) && IsSeparator(sep)
    requires exists i :: 0 <= i < |bits| && Hits(val, bits[i].mask)
    requires FitsDisplay(val, bits, Format([sep], false))
    ensures SurvivesAsText(val, bits, sep)
  {
    hide AddedAll, Parse, MaskOf, Joined, GoodName, SingleBit, SameName, And, Or;
    DisplayIsJoin(val, bits, Format([sep], false));
    NamesGood(val, bits);
    ParseJoined(sep, Names(val, bits), bits);
    assert bits[0..] == bits;
    NamesMask(val, bits, 0, 0);
    OrAbsorbs(And(val, AllMasks(bits)));
  }

  /** Whatever had to be dropped, the display never claims a bit that the mask does not
    have. */
  lemma DisplayNeverLies(val: bv16, bits: seq<Bit>, sep: char)
    requires GoodTable(bits) && IsSeparator(sep)
    ensures var fmt := Format([sep], false);
            var shown := Kept(fmt, STR_SIZE, [], Names(val, bits));
            shown != [] ==>
              var read := Parse(AddedAll(fmt, STR_SIZE, "", Names(val, bits)), bits);
              read.Some? && Or(read.value, And(val, AllMasks(bits))) == And(val, AllMasks(bits))
  {
    hide AddedAll, Parse, MaskOf, Joined, GoodName, SingleBit, SameName, And, Or, Kept, Union, Mentions, AllKnown;
    var fmt, names := Format([sep], false), Names(val, bits);
    var shown := Kept(fmt, STR_SIZE, [], names);
    NamesGood(val, bits);
    AllGoodNonEmpty(names);
    AddedAllIsJoin(fmt, STR_SIZE, [], names);
    JoinedNone(fmt);
    KeptAmong(fmt, STR_SIZE, [], names);
    if shown != [] {
      ParseJoined(sep, shown, bits);
      MaskOfIsUnion(bits, shown, 0);
      MaskOfIsUnion(bits, names, 0);
      assert bits[0..] == bits;
      NamesMask(val, bits, 0, 0);
      OrAbsorbs(Union(bits, shown));
      OrAbsorbs(Union(bits, names));
      OrAbsorbs(And(val, AllMasks(bits)));
      AmongIsCovered(names, shown);
      CoveredUnion(bits, names, shown);
    }
  }

  lemma AmongIsCovered(names: seq<string>, shown: seq<string>)
    requires forall n :: n in shown ==> n in names
    ensures Covers(names, shown)
  {
    forall i | 0 <= i < |shown|
      ensures Mentions(names, shown[i])
    {
      assert shown[i] in names;
      var k :| 0 <= k < |names| && names[k] == shown[i];
      assert SameName(names[k], shown[i]);
    }
  }

  lemma AllGoodNonEmpty(names: seq<string>)
    requires forall n :: n in names ==> GoodName(n)
    ensures AllNonEmpty(names) && forall n :: n in names ==> NulFree(n)
  {
    hide GoodName, NulFree;
    forall n | n in names
      ensures n != "" && NulFree(n)
    {
      GoodNameIsUnbroken(n);
    }
    assert forall i :: 0 <= i < |names| ==> names[i] in names;
  }

  /** A mask with no bit in the table shows nothing, and nothing is refused. */
  lemma NothingRefused(val: bv16, bits: seq<Bit>, fmt: Format)
    requires GoodTable(bits) && forall i :: 0 <= i < |bits| ==> !Hits(val, bits[i].mask)
    ensures AddedAll(fmt, STR_SIZE, "", Names(val, bits)) == "" && Parse("", bits) == None
  {
    hide GoodName, SingleBit, SameName;
    NamesGood(val, bits);
  }

  // ----- the JSON round trip ------------------------------------------------

  const JSON: Format := Format(",", true)
  const COMMAS: Format := Format(",", false)

  lemma {:induction false} PlainEscape(name: string)
    requires forall i :: 0 <= i < |name| ==> PlainChar(name[i])
    ensures JsonText.Escape(name, false) == name
  {
    if name != "" {
      PlainEscape(name[1..]);
    }
  }

  lemma ParsePiece(lib: Numbers, name: string, rest: string)
    requires GoodName(name)
    ensures ParseValue(lib, Piece(JSON, name) + rest, 1) == Ok(String(name), rest)
    ensures Peek(Piece(JSON, name) + rest) == '\"'
  {
    hide JsonText.Escape, ParseObject, ParseArray, ParseString;
    PlainEscape(name);
    var text := Piece(JSON, name) + rest;
    assert text[0] == '\"';
    assert JsonText.Quote(name, false) == Piece(JSON, name);
    JsonRoundTrip.ParsePrintedString(name, JsonPrinter.Style(false, false), rest);
    NothingToSkip(text);
  }

  lemma {:induction false} ParsePieces(lib: Numbers, names: seq<string>, sofar: seq<Json>)
    requires names != [] && forall n :: n in names ==> GoodName(n)
    ensures ParseItems(lib, Joined(JSON, names) + " ]", 1, sofar) == Ok(sofar + Strings(names), "")
    decreases |names|
  {
    hide ParseValue, ParseItems, GoodName, Piece, Joined, SkipSpace;
    var name, rest := names[0], names[1..];
    assert name in names && Strings(names) == [String(name)] + Strings(rest);
    JoinedStep(JSON, names);
    if |names| == 1 {
      LastPiece(lib, name, sofar);
      assert Strings(names) == [String(name)];
    } else {
      var tail := Joined(JSON, rest) + " ]";
      assert Joined(JSON, names) + " ]" == Piece(JSON, name) + ("," + tail);
      InnerText(rest, JSON);
      MorePieces(lib, name, sofar, tail);
      ParsePieces(lib, rest, sofar + [String(name)]);
      assert sofar + [String(name)] + Strings(rest) == sofar + Strings(names);
    }
  }

  lemma LastPiece(lib: Numbers, name: string, sofar: seq<Json>)
    requires GoodName(name)
    ensures ParseItems(lib, Piece(JSON, name) + " ]", 1, sofar) == Ok(sofar + [String(name)], "")
  {
    hide ParseValue, ParseItems, GoodName, Piece;
    ParsePiece(lib, name, " ]");
    assert " ]"[1..] == "]" == "]" + "";
    JsonAcceptance.ItemsEnd(lib, Piece(JSON, name) + " ]", 1, sofar, String(name), " ]", "");
  }

  lemma MorePieces(lib: Numbers, name: string, sofar: seq<Json>, tail: string)
    requires GoodName(name) && Peek(tail) == '\"'
    ensures ParseItems(lib, Piece(JSON, name) + ("," + tail), 1, sofar) ==
            ParseItems(lib, tail, 1, sofar + [String(name)])
  {
    hide ParseValue, ParseItems, GoodName, Piece;
    var more := "," + tail;
    ParsePiece(lib, name, more);
    NothingToSkip(more);
    NothingToSkip(tail);
    assert more[1..] == tail;
    JsonAcceptance.ItemsMore(lib, Piece(JSON, name) + more, 1, sofar, String(name), more);
  }

  lemma JoinedStep(fmt: Format, names: seq<string>)
    requires names != []
    ensures Joined(fmt, names) ==
            if |names| == 1 then Piece(fmt, names[0]) else Piece(fmt, names[0]) + fmt.separator + Joined(fmt, names[1..])
  {
  }

  /** The text handed to the parser for a list of shown names. */
  function ArrayText(fmt: Format, names: seq<string>): string {
    "[" + (" " + (Joined(fmt, names) + " ]"))
  }

  lemma ArrayTextParts(text: string)
    ensures "[ " + text + " ]" == "[" + (" " + (text + " ]"))
  {
  }

  lemma OpenText(lib: Numbers, inner: string)
    ensures ParseText(lib, "[" + inner) == ParseArray(lib, "[" + inner, 1)
  {
    hide ParseArray, ParseValue;
    var text := "[" + inner;
    JsonRoundTrip.NoByteOrderMark(text);
    JsonAcceptance.DispatchArray(lib, text, 0);
  }

  lemma InnerText(names: seq<string>, fmt: Format)
    requires fmt.quoted && names != []
    ensures var inner := Joined(fmt, names) + " ]";
            inner[0] == '\"' && SkipSpace(" " + inner) == inner
  {
    assert Joined(fmt, names) != "" && Joined(fmt, names)[0] == '\"';
    hide Joined;
    var inner := Joined(fmt, names) + " ]";
    assert AllSpace(" ");
    SkipSpacePrefix(" ", inner);
    NothingToSkip(inner);
  }

  /** The array text is parsed as the array of the names. */
  lemma ParseArrayText(lib: Numbers, names: seq<string>)
    requires forall n :: n in names ==> GoodName(n)
    ensures ParseText(lib, ArrayText(JSON, names)) == Ok(Array(Strings(names)), "")
  {
    hide ParseItems, GoodName, Joined, ParseText, ParseArray, SkipSpace;
    var inner := Joined(JSON, names) + " ]";
    OpenText(lib, " " + inner);
    if names == [] {
      JoinedNone(JSON);
      assert inner == " ]";
      EmptyArrayText(lib);
      assert Strings(names) == [];
    } else {
      InnerText(names, JSON);
      ParsePieces(lib, names, []);
      assert [] + Strings(names) == Strings(names);
      JsonAcceptance.OpenArray(lib, " " + inner, 1, Strings(names), "");
    }
  }

  lemma EmptyArrayText(lib: Numbers)
    ensures ParseArray(lib, "[" + (" " + " ]"), 1) == Ok(Array([]), "")
  {
    hide ParseItems;
    var text := "[" + (" " + " ]");
    assert text[1..] == "  ]" && "  ]"[1..] == " ]" && " ]"[1..] == "]" && "]"[1..] == "";
    assert SkipSpace("  ]") == SkipSpace(" ]") == SkipSpace("]") == "]";
  }

  /** With a space between the names, as `-c` leaves it for a later `-j`, the array text
    is accepted exactly up to one name. */
  lemma SeparatorMatters(lib: Numbers, names: seq<string>, separator: string)
    requires forall n :: n in names ==> GoodName(n)
    requires separator == "," || separator == " "
    ensures ParseText(lib, ArrayText(Format(separator, true), names)).Ok? <==> separator == "," || |names| <= 1
  {
    hide GoodName, ParseText, Joined;
    if separator == "," {
      ParseArrayText(lib, names);
    } else if |names| <= 1 {
      JoinedAlone(Format(separator, true), JSON, names);
      ParseArrayText(lib, names);
    } else {
      SpacedFails(lib, names);
    }
  }

  lemma JoinedAlone(fmt: Format, other: Format, names: seq<string>)
    requires |names| <= 1 && fmt.quoted == other.quoted
    ensures Joined(fmt, names) == Joined(other, names)
  {
  }

  lemma SpacedFails(lib: Numbers, names: seq<string>)
    requires |names| > 1 && forall n :: n in names ==> GoodName(n)
    ensures ParseText(lib, ArrayText(Format(" ", true), names)) == Fail
  {
    hide GoodName, ParseText, Joined, ParseValue, ParseArray, ParseItems, SkipSpace, Piece;
    var fmt := Format(" ", true);
    var inner, tail := Joined(fmt, names) + " ]", Joined(fmt, names[1..]) + " ]";
    OpenText(lib, " " + inner);
    InnerText(names, fmt);
    InnerText(names[1..], fmt);
    JoinedStep(fmt, names);
    assert inner == Piece(fmt, names[0]) + (" " + tail);
    JoinedAlone(fmt, JSON, [names[0]]);
    JoinedStep(fmt, [names[0]]);
    JoinedStep(JSON, [names[0]]);
    assert names[0] in names;
    ParsePiece(lib, names[0], " " + tail);
    ItemsBlocked(lib, inner, String(names[0]), " " + tail);
    ArrayBlocked(lib, " " + inner);
  }

  lemma ArrayBlocked(lib: Numbers, inner: string)
    requires Peek(SkipSpace(inner)) != ']' && ParseItems(lib, SkipSpace(inner), 1, []) == Fail
    ensures ParseArray(lib, "[" + inner, 1) == Fail
  {
    hide ParseItems, SkipSpace;
    assert ("[" + inner)[1..] == inner;
  }

  lemma ItemsBlocked(lib: Numbers, s: string, v: Json, more: string)
    requires Peek(s) != NUL && ParseValue(lib, s, 1) == Ok(v, more)
    requires Peek(SkipSpace(more)) != ',' && Peek(SkipSpace(more)) != ']'
    ensures ParseItems(lib, s, 1, []) == Fail
  {
    hide ParseValue, SkipSpace;
  }

  /** Whether the joined names fit the buffer of the write path. */
  predicate FitsJoin(val: bv16, bits: seq<Bit>) {
    |Joined(COMMAS, Names(val, bits))| + 1 < JOIN_SIZE
  }

  lemma StringsFit(lib: Numbers, names: seq<string>)
    ensures WellFormed(lib, Array(Strings(names))) && FitsNesting(Array(Strings(names)), 0)
  {
  }

  /** Shown as a JSON array, stored in any style, read again, joined and parsed: the mask
    within the table. */
  lemma ArrayRoundTrip(lib: Numbers, val: bv16, bits: seq<Bit>, style: JsonPrinter.Style)
    requires GoodTable(bits) && (exists i :: 0 <= i < |bits| && Hits(val, bits[i].mask))
    requires FitsDisplay(val, bits, JSON) && FitsJoin(val, bits)
    ensures SurvivesAsArray(lib, val, bits, style)
  {
    hide AddedAll, Parse, MaskOf, Joined, GoodName, SingleBit, SameName, And, Or, ParseText, JoinedArray,
         JsonPrinter.Print, WellFormed, FitsNesting;
    var names := Names(val, bits);
    DisplayIsJoin(val, bits, JSON);
    ArrayTextParts(Joined(JSON, names));
    NamesGood(val, bits);
    ParseArrayText(lib, names);
    StringsFit(lib, names);
    JsonRoundTrip.ParsePrintedText(lib, Array(Strings(names)), style);
    AllGoodNonEmpty(names);
    JoinedNone(COMMAS);
    assert [] + names == names;
    JoinedArrayIsJoin([], names);
    ParseJoined(',', names, bits);
    assert bits[0..] == bits;
    NamesMask(val, bits, 0, 0);
    OrAbsorbs(And(val, AllMasks(bits)));
  }

  // ----- the program's own tables -------------------------------------------

  const FUNC_BITS: seq<Bit> := [
    Bit(0x01, "Switch"), Bit(0x02, "SCRL"), Bit(0x04, "BALANCE_EN"), Bit(0x08, "CHG_BALANCE"),
    Bit(0x10, "LED_EN"), Bit(0x20, "LED_NUM"), Bit(0x40, "RTC"), Bit(0x80, "EDV")]

  const NTC_BITS: seq<Bit> := [
    Bit(0x01, "NTC1"), Bit(0x02, "NTC2"), Bit(0x04, "NTC3"), Bit(0x08, "NTC4"),
    Bit(0x10, "NTC5"), Bit(0x20, "NTC6"), Bit(0x40, "NTC7"), Bit(0x80, "NTC8")]

  /** A bound on everything that can be shown of a table. */
  function Weight(bits: seq<Bit>): nat {
    if bits == [] then 0 else |bits[0].name| + 3 + Weight(bits[1..])
  }

  lemma {:induction false} JoinedWeight(val: bv16, bits: seq<Bit>, fmt: Format)
    requires |fmt.separator| <= 1
    ensures |Joined(fmt, Names(val, bits))| <= Weight(bits)
  {
    hide Hits;
    if bits != [] {
      JoinedWeight(val, bits[1..], fmt);
      var names, rest := Names(val, bits), Names(val, bits[1..]);
      if Hits(val, bits[0].mask) {
        assert names[0] == bits[0].name && names[1..] == rest;
        JoinedStep(fmt, names);
      } else {
        assert names == rest;
      }
    }
  }

  lemma DifferAt(a: string, b: string, k: nat)
    requires |a| != |b| || (k < |a| && ToUpper(a[k]) != ToUpper(b[k]))
    ensures !SameName(a, b)
  {
    assert |Upper(a)| == |a| && |Upper(b)| == |b|;
    assert k < |a| == |b| ==> Upper(a)[k] == ToUpper(a[k]) && Upper(b)[k] == ToUpper(b[k]);
  }

  lemma FuncNames(i: nat)
    requires i < |FUNC_BITS|
    ensures GoodName(FUNC_BITS[i].name) && SingleBit(FUNC_BITS[i].mask)
  {
  }

  lemma FuncDistinct(i: nat)
    requires i < |FUNC_BITS|
    ensures forall j :: i < j < |FUNC_BITS| ==> !SameName(FUNC_BITS[i].name, FUNC_BITS[j].name)
  {
    hide SameName;
    forall j | i < j < |FUNC_BITS|
      ensures !SameName(FUNC_BITS[i].name, FUNC_BITS[j].name)
    {
      DifferAt(FUNC_BITS[i].name, FUNC_BITS[j].name, 0);
    }
  }

  lemma NtcNames(i: nat)
    requires i < |NTC_BITS|
    ensures GoodName(NTC_BITS[i].name) && SingleBit(NTC_BITS[i].mask)
  {
  }

  lemma NtcDistinct(i: nat)
    requires i < |NTC_BITS|
    ensures forall j :: i < j < |NTC_BITS| ==> !SameName(NTC_BITS[i].name, NTC_BITS[j].name)
  {
    hide SameName;
    forall j | i < j < |NTC_BITS|
      ensures !SameName(NTC_BITS[i].name, NTC_BITS[j].name)
    {
      DifferAt(NTC_BITS[i].name, NTC_BITS[j].name, 3);
    }
  }

  lemma ProgramTables()
    ensures GoodTable(FUNC_BITS) && GoodTable(NTC_BITS)
  {
    hide SameName, GoodName, SingleBit;
    forall i | 0 <= i < |FUNC_BITS|
      ensures GoodName(FUNC_BITS[i].name) && SingleBit(FUNC_BITS[i].mask)
      ensures forall j :: i < j < |FUNC_BITS| ==> !SameName(FUNC_BITS[i].name, FUNC_BITS[j].name)
    {
      FuncNames(i);
      FuncDistinct(i);
    }
    forall i | 0 <= i < |NTC_BITS|
      ensures GoodName(NTC_BITS[i].name) && SingleBit(NTC_BITS[i].mask)
      ensures forall j :: i < j < |NTC_BITS| ==> !SameName(NTC_BITS[i].name, NTC_BITS[j].name)
    {
      NtcNames(i);
      NtcDistinct(i);
    }
  }

  lemma {:induction false} WeightBound(bits: seq<Bit>, k: nat)
    requires forall i :: 0 <= i < |bits| ==> |bits[i].name| <= k
    ensures Weight(bits) <= |bits| * (k + 3)
  {
    if bits != [] {
      WeightBound(bits[1..], k);
      assert |bits| * (k + 3) == (|bits| - 1) * (k + 3) + (k + 3);
    }
  }

  lemma ProgramWeights()
    ensures Weight(FUNC_BITS) < JOIN_SIZE - 1 && Weight(NTC_BITS) < JOIN_SIZE - 1
  {
    hide Weight;
    WeightBound(FUNC_BITS, 11);
    WeightBound(NTC_BITS, 11);
  }

  /** A table whose names all fit at once loses nothing: every mask with a bit in it
    survives, as text and as an array. */
  lemma SmallTableSurvives(lib: Numbers, val: bv16, bits: seq<Bit>, sep: char, style: JsonPrinter.Style)
    requires GoodTable(bits) && Weight(bits) < JOIN_SIZE - 1 && IsSeparator(sep)
    requires exists i :: 0 <= i < |bits| && Hits(val, bits[i].mask)
    ensures SurvivesAsText(val, bits, sep) && SurvivesAsArray(lib, val, bits, style)
  {
    hide AddedAll, Parse, Joined, GoodTable, And, AllMasks, ParseText, JoinedArray, JsonPrinter.Print, Names, Weight;
    JoinedWeight(val, bits, Format([sep], false));
    JoinedWeight(val, bits, JSON);
    JoinedWeight(val, bits, COMMAS);
    TextRoundTrip(val, bits, sep);
    ArrayRoundTrip(lib, val, bits, style);
  }

  predicate SurvivesAsText(val: bv16, bits: seq<Bit>, sep: char) {
    Parse(AddedAll(Format([sep], false), STR_SIZE, "", Names(val, bits)), bits) == Some(And(val, AllMasks(bits)))
  }

  predicate SurvivesAsArray(lib: Numbers, val: bv16, bits: seq<Bit>, style: JsonPrinter.Style) {
    var parsed := ParseText(lib, "[ " + AddedAll(JSON, STR_SIZE, "", Names(val, bits)) + " ]");
    && parsed.Ok? && parsed.rest == "" && parsed.value.Array?
    && ParseText(lib, JsonPrinter.Print(lib, parsed.value, 0, style)) == parsed
    && Parse(JoinedArray("", parsed.value.items), bits) == Some(And(val, AllMasks(bits)))
  }

  /** The two tables of the program are such tables. */
  lemma ProgramMasksSurvive(lib: Numbers, val: bv16, bits: seq<Bit>, sep: char, style: JsonPrinter.Style)
    requires bits == FUNC_BITS || bits == NTC_BITS
    requires IsSeparator(sep)
    requires exists i :: 0 <= i < |bits| && Hits(val, bits[i].mask)
    ensures SurvivesAsText(val, bits, sep) && SurvivesAsArray(lib, val, bits, style)
  {
    hide *;
    ProgramTables();
    ProgramWeights();
    SmallTableSurvives(lib, val, bits, sep, style);
  }
}
