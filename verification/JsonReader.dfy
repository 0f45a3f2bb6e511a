/** The parser of parson as it runs: a cursor that moves over the text.  Each
  routine is proved against the corresponding function of JsonParser. */
module JsonReader {
  import opened Wrappers
  import opened CString
  import opened Libc
  import opened JsonValue
  import opened JsonParser
  import JsonText

  // ----- skip_quotes and process_string agree ------------------------------

  /** A step of `process_string` consumes what `skip_quotes` passes over. */
  lemma StepSkips(t: string)
    requires t != [] && t[0] != '\"' && t[0] != NUL && JsonText.UnescapeStep(t).Some?
    ensures var k := JsonText.UnescapeStep(t).value.1;
            JsonText.SkipQuoted(t) == JsonText.Plus(JsonText.SkipQuoted(t[k..]), k)
  {
    hide JsonText.SkipQuoted, JsonText.UnescapeStep, JsonText.ParseCodePoint;
    StepShape(t);
    if t[0] == '\\' {
      SkipTwo(t);
      if t[1] == 'u' {
        CodePointSkips(t[2..]);
        var n := JsonText.ParseCodePoint(t[2..]).value.1;
        assert t[2..][n..] == t[n + 2..];
      }
    } else {
      SkipOne(t);
    }
  }

  lemma StepShape(t: string)
    requires t != [] && JsonText.UnescapeStep(t).Some?
    ensures var k := JsonText.UnescapeStep(t).value.1;
            if t[0] != '\\' then k == 1
            else
              && |t| >= 2 && t[1] != NUL
              && (t[1] != 'u' ==> k == 2)
              && (t[1] == 'u' ==> JsonText.ParseCodePoint(t[2..]).Some? && k == JsonText.ParseCodePoint(t[2..]).value.1 + 2)
  {
    hide JsonText.PutUtf8, JsonText.ParseCodePoint;
    assert t[0] == '\\' && |t| >= 2 ==> t[1..][0] == t[1];
  }

  lemma CodePointSkips(s: string)
    requires JsonText.ParseCodePoint(s).Some?
    ensures var n := JsonText.ParseCodePoint(s).value.1;
            JsonText.SkipQuoted(s) == JsonText.Plus(JsonText.SkipQuoted(s[n..]), n)
  {
    hide JsonText.SkipQuoted, JsonText.Combine, JsonText.ParseHex4;
    HexHarmless(s);
    SkipHarmless(s, 4);
    var n := JsonText.ParseCodePoint(s).value.1;
    if n == 10 {
      var t := s[4..];
      assert t[0] == s[4] && t[1] == s[5] && t[2..] == s[6..] && s[6..][4..] == s[10..];
      SkipTwo(t);
      HexHarmless(s[6..]);
      SkipHarmless(s[6..], 4);
    }
  }

  lemma SkipNothing(t: string)
    ensures Peek(t) == NUL ==> JsonText.SkipQuoted(t) == None
    ensures Peek(t) == '\"' ==> JsonText.SkipQuoted(t) == Some(1)
    ensures Peek(t) == '\\' && Peek(t[1..]) == NUL ==> JsonText.SkipQuoted(t) == None
  {
  }

  lemma SkipOne(t: string)
    requires t != [] && t[0] != '\"' && t[0] != NUL && t[0] != '\\'
    ensures JsonText.SkipQuoted(t) == JsonText.Plus(JsonText.SkipQuoted(t[1..]), 1)
  {
  }

  lemma SkipTwo(t: string)
    requires |t| >= 2 && t[0] == '\\' && t[1] != NUL
    ensures JsonText.SkipQuoted(t) == JsonText.Plus(JsonText.SkipQuoted(t[2..]), 2)
  {
  }

  lemma HexHarmless(s: string)
    requires JsonText.ParseHex4(s).Some?
    ensures JsonText.Harmless(s[..4])
  {
    assert forall i :: 0 <= i < 4 ==> JsonText.HexValue(s[..4][i]) != -1;
  }

  lemma SkipHarmless(t: string, n: nat)
    requires n <= |t| && JsonText.Harmless(t[..n])
    ensures JsonText.SkipQuoted(t) == JsonText.Plus(JsonText.SkipQuoted(t[n..]), n)
  {
    JsonText.SkipPlain(t[..n], t[n..]);
    assert t[..n] + t[n..] == t;
  }

  /** The literal `s` closed by the quote at the front of `u`: the step taken at
    its front does not depend on what lies behind the quote. */
  lemma StepWithin(s: string, u: string)
    requires s != [] && Peek(u) == '\"'
    requires JsonText.SkipQuoted(s + u) == Some(|s| + 1)
    ensures JsonText.UnescapeStep(s + u) == JsonText.UnescapeStep(s)
  {
    var t := s + u;
    assert t[0] == s[0] && t[0] != '\"';
    if s[0] == '\\' {
      SkipTwo(t);
      assert |s| + 1 >= 3;
      assert t[1..][0] == s[1] == s[1..][0];
      assert t[2..] == s[2..] + u;
      if s[1] == 'u' {
        CodePointWithin(s[2..], u);
      }
    }
  }

  lemma CodePointWithin(s: string, u: string)
    requires Peek(u) == '\"'
    ensures JsonText.ParseCodePoint(s + u) == JsonText.ParseCodePoint(s)
  {
    hide JsonText.Combine;
    HexWithin(s, u);
    if JsonText.ParseHex4(s).Some? {
      if |s| >= 6 {
        assert (s + u)[6..] == s[6..] + u;
        HexWithin(s[6..], u);
      } else if |s + u| >= 6 {
        assert (s + u)[|s|] == '\"';
      }
    }
  }

  lemma HexWithin(s: string, u: string)
    requires Peek(u) == '\"'
    ensures JsonText.ParseHex4(s + u) == JsonText.ParseHex4(s)
  {
    if |s| < 4 <= |s + u| {
      assert JsonText.HexValue((s + u)[|s|]) == -1;
    }
  }

  // ----- the cursor --------------------------------------------------------

  class Cursor {
    const text: string
    var pos: nat

    ghost predicate Valid()
      reads this
    {
      pos <= |text|
    }

    constructor (text: string)
      ensures Valid() && this.text == text && Rest() == text
    {
      this.text := text;
      pos := 0;
    }

    ghost function Rest(): string
      requires Valid()
      reads this
    {
      text[pos..]
    }

    /** `**string` */
    function Current(): (c: char)
      requires Valid()
      reads this
      ensures c == Peek(Rest())
    {
      if pos < |text| then text[pos] else NUL
    }

    /** The routine returned what the function says and left the cursor there. */
    ghost predicate Agrees<T>(r: Option<T>, p: Parsed<T>)
      requires Valid()
      reads this
    {
      match p
      case Fail => r.None?
      case Ok(v, rest) => r == Some(v) && Rest() == rest
    }

    /** SKIP_CHAR, off the terminator */
    method SkipChar()
      requires Valid() && pos < |text|
      modifies this`pos
      ensures Valid() && pos == old(pos) + 1 && Rest() == old(Rest())[1..]
    {
      pos := pos + 1;
    }

    method Advance(n: nat)
      requires Valid() && pos + n <= |text|
      modifies this`pos
      ensures Valid() && pos == old(pos) + n && Rest() == old(Rest())[n..]
    {
      pos := pos + n;
    }

    /** SKIP_WHITESPACES */
    method SkipWhitespaces()
      requires Valid()
      modifies this`pos
      ensures Valid() && pos >= old(pos)
      ensures Rest() == SkipSpace(old(Rest()))
    {
      while IsSpace(Current())
        invariant Valid() && pos >= old(pos)
        invariant SkipSpace(Rest()) == SkipSpace(old(Rest()))
        decreases |text| - pos
      {
        SkipChar();
      }
      NothingToSkip(Rest());
    }

    /** `skip_quotes` */
    method SkipQuotes() returns (ok: bool)
      requires Valid()
      modifies this`pos
      ensures Valid()
      ensures ok <==> Peek(old(Rest())) == '\"' && JsonText.SkipQuoted(old(Rest())[1..]).Some?
      ensures ok ==> pos == old(pos) + 1 + JsonText.SkipQuoted(old(Rest())[1..]).value
    {
      hide JsonText.SkipQuoted;
      if Current() != '\"' {
        return false;
      }
      SkipChar();
      ghost var start := Rest();
      while Current() != '\"'
        invariant Valid() && pos > old(pos)
        invariant JsonText.SkipQuoted(start) == JsonText.Plus(JsonText.SkipQuoted(Rest()), pos - old(pos) - 1)
        decreases |text| - pos
      {
        ghost var here := Rest();
        SkipNothing(here);
        if Current() == NUL {
          return false;
        } else if Current() == '\\' {
          SkipChar();
          if Current() == NUL {
            return false;
          }
          SkipTwo(here);
          assert here[1..][1..] == here[2..];
        } else {
          SkipOne(here);
        }
        SkipChar();
      }
      SkipNothing(Rest());
      SkipChar();
      return true;
    }

    /** `process_string` on the `len` characters from `start`, which
      `skip_quotes` has found to be closed by a quote.  The output is collected
      in a buffer of `len + 1` characters. */
    method ProcessString(start: nat, len: nat) returns (r: Option<string>)
      requires start + len < |text| && text[start + len] == '\"'
      requires JsonText.SkipQuoted(text[start..]) == Some(len + 1)
      ensures r == JsonText.Unescape(text[start..start + len])
    {
      hide JsonText.UnescapeStep, JsonText.Unescape, JsonText.SkipQuoted;
      var output := new char[len + 1];
      var i, o := 0, 0;
      ghost var whole := JsonText.Unescape(text[start..start + len]);
      PrependNothing(whole);
      assert output[..0] == [];
      while i < len && text[start + i] != NUL
        invariant 0 <= o <= i <= len
        invariant JsonText.SkipQuoted(text[start + i..]) == Some(len - i + 1)
        invariant whole == Prepend(output[..o], JsonText.Unescape(text[start + i..start + len]))
      {
        ghost var s, u := text[start + i..start + len], text[start + len..];
        ProcessStep(start, len, i);
        var step := JsonText.UnescapeStep(text[start + i..]);
        if step.None? {
          return None;
        }
        var (bytes, k) := step.value;
        ghost var done := output[..o];
        forall j | 0 <= j < |bytes| {
          output[o + j] := bytes[j];
        }
        assert output[..o + |bytes|] == done + bytes;
        PrependTwice(done, bytes, JsonText.Unescape(text[start + i + k..start + len]));
        i, o := i + k, o + |bytes|;
      }
      UnescapeEnd(text[start + i..start + len]);
      output[o] := NUL;
      assert output[..o] + [] == output[..o];
      return Some(output[..o]);
    }

    /** One turn of the loop of `process_string` at offset `i`. */
    lemma ProcessStep(start: nat, len: nat, i: nat)
      requires start + len < |text| && text[start + len] == '\"' && i < len && text[start + i] != NUL
      requires JsonText.SkipQuoted(text[start + i..]) == Some(len - i + 1)
      ensures var step := JsonText.UnescapeStep(text[start + i..]);
              var rest := JsonText.Unescape(text[start + i..start + len]);
              if step.None? then rest == None
              else
                var (bytes, k) := step.value;
                && 0 < k <= len - i && |bytes| <= k
                && JsonText.SkipQuoted(text[start + i + k..]) == Some(len - i - k + 1)
                && rest == Prepend(bytes, JsonText.Unescape(text[start + i + k..start + len]))
    {
      hide JsonText.UnescapeStep, JsonText.SkipQuoted;
      var s, u, t := text[start + i..start + len], text[start + len..], text[start + i..];
      assert t == s + u;
      StepWithin(s, u);
      var step := JsonText.UnescapeStep(t);
      QuoteNotFirst(t, len - i);
      if step.Some? {
        var k := step.value.1;
        StepSkips(t);
        assert t[k..] == text[start + i + k..];
        assert s[k..] == text[start + i + k..start + len];
      }
    }

    /** `get_quoted_string` */
    method GetQuotedString() returns (r: Option<string>)
      requires Valid()
      modifies this`pos
      ensures Valid()
      ensures match JsonText.GetQuoted(old(Rest()))
              case None => r == None
              case Some((s, n)) => r == Some(s) && pos == old(pos) + n
    {
      hide JsonText.SkipQuoted, JsonText.Unescape;
      var start := pos;
      var ok := SkipQuotes();
      if !ok {
        return None;
      }
      assert text[start..][1..] == text[start + 1..];
      var len := pos - start - 2;
      assert text[start..][1..len + 1] == text[start + 1..start + 1 + len];
      r := ProcessString(start + 1, len);
    }

    /** `parse_value` */
    method ReadValue(lib: Numbers, nesting: nat) returns (r: Option<Json>)
      requires Valid()
      modifies this`pos
      ensures Valid() && Agrees(r, ParseValue(lib, old(Rest()), nesting))
      ensures r.Some? ==> pos >= old(pos)
      decreases |text| - pos, 1
    {
      hide ParseArray, ParseObject, ParseString, ParseBoolean, ParseNumber, ParseNull, SkipSpace;
      if nesting > MAX_NESTING {
        return None;
      }
      SkipWhitespaces();
      var c := Current();
      if c == '{' {
        r := ReadObject(lib, nesting + 1);
      } else if c == '[' {
        r := ReadArray(lib, nesting + 1);
      } else if c == '\"' {
        r := ReadString();
      } else if c == 'f' || c == 't' {
        r := ReadBoolean();
      } else if c == '-' || IsDigit(c) {
        r := ReadNumber(lib);
      } else if c == 'n' {
        r := ReadNull();
      } else {
        r := None;
      }
    }

    /** `parse_string_value` */
    method ReadString() returns (r: Option<Json>)
      requires Valid()
      modifies this`pos
      ensures Valid() && Agrees(r, ParseString(old(Rest())))
      ensures r.Some? ==> pos >= old(pos)
    {
      hide JsonText.GetQuoted;
      var s := GetQuotedString();
      if s.None? {
        return None;
      }
      return Some(String(s.value));
    }

    /** `parse_boolean_value` */
    method ReadBoolean() returns (r: Option<Json>)
      requires Valid()
      modifies this`pos
      ensures Valid() && Agrees(r, ParseBoolean(old(Rest())))
      ensures r.Some? ==> pos >= old(pos)
    {
      if StartsWith(text[pos..], "true") {
        Advance(4);
        return Some(Boolean(true));
      } else if StartsWith(text[pos..], "false") {
        Advance(5);
        return Some(Boolean(false));
      }
      return None;
    }

    /** `parse_number_value` */
    method ReadNumber(lib: Numbers) returns (r: Option<Json>)
      requires Valid()
      modifies this`pos
      ensures Valid() && Agrees(r, ParseNumber(lib, old(Rest())))
      ensures r.Some? ==> pos >= old(pos)
    {
      var n := lib.strtod(text[pos..]);
      if n.OutOfRange? || !IsDecimal(text[pos..][..n.consumed]) {
        return None;
      }
      Advance(n.consumed);
      return Some(Number(n.value));
    }

    /** `parse_null_value` */
    method ReadNull() returns (r: Option<Json>)
      requires Valid()
      modifies this`pos
      ensures Valid() && Agrees(r, ParseNull(old(Rest())))
      ensures r.Some? ==> pos >= old(pos)
    {
      if StartsWith(text[pos..], "null") {
        Advance(4);
        return Some(Null);
      }
      return None;
    }

    /** `parse_array_value` */
    method ReadArray(lib: Numbers, nesting: nat) returns (r: Option<Json>)
      requires Valid()
      modifies this`pos
      ensures Valid() && Agrees(r, ParseArray(lib, old(Rest()), nesting))
      ensures r.Some? ==> pos >= old(pos)
      decreases |text| - pos, 0
    {
      hide ParseValue, ParseItems, SkipSpace;
      if Current() != '[' {
        return None;
      }
      SkipChar();
      SkipWhitespaces();
      if Current() == ']' {
        SkipChar();
        return Some(Array([]));
      }
      ghost var start := Rest();
      var items: seq<Json> := [];
      while Current() != NUL
        invariant Valid() && pos > old(pos)
        invariant ParseItems(lib, start, nesting, []) == ParseItems(lib, Rest(), nesting, items)
        decreases |text| - pos
      {
        ghost var here := Rest();
        var v := ReadValue(lib, nesting);
        ItemsTurn(lib, here, nesting, items);
        if v.None? {
          return None;
        }
        items := items + [v.value];
        SkipWhitespaces();
        if Current() != ',' {
          NothingToSkip(Rest());
          SkipWhitespaces();
          if Current() != ']' {
            return None;
          }
          SkipChar();
          return Some(Array(items));
        }
        SkipChar();
        SkipWhitespaces();
      }
      ItemsTurn(lib, Rest(), nesting, items);
      return None;
    }

    /** `parse_object_value` */
    method ReadObject(lib: Numbers, nesting: nat) returns (r: Option<Json>)
      requires Valid()
      modifies this`pos
      ensures Valid() && Agrees(r, ParseObject(lib, old(Rest()), nesting))
      ensures r.Some? ==> pos >= old(pos)
      decreases |text| - pos, 0
    {
      hide ParseValue, ParseMembers, ParseKey, SkipSpace, GetValue;
      if Current() != '{' {
        return None;
      }
      SkipChar();
      SkipWhitespaces();
      if Current() == '}' {
        SkipChar();
        return Some(Object([]));
      }
      ghost var start := Rest();
      var ms: seq<Member> := [];
      while Current() != NUL
        invariant Valid() && pos > old(pos)
        invariant ParseMembers(lib, start, nesting, []) == ParseMembers(lib, Rest(), nesting, ms)
        decreases |text| - pos
      {
        ghost var here := Rest();
        MembersTurn(lib, here, nesting, ms);
        var key := ReadKey();
        if key.None? {
          return None;
        }
        var v := ReadValue(lib, nesting);
        if v.None? || GetValue(ms, key.value).Some? {
          return None;
        }
        ms := ms + [Member(key.value, v.value)];
        SkipWhitespaces();
        if Current() != ',' {
          NothingToSkip(Rest());
          SkipWhitespaces();
          if Current() != '}' {
            return None;
          }
          SkipChar();
          return Some(Object(ms));
        }
        SkipChar();
        SkipWhitespaces();
      }
      MembersTurn(lib, Rest(), nesting, ms);
      return None;
    }

    /** The key and the colon of one turn of `parse_object_value`. */
    method ReadKey() returns (r: Option<string>)
      requires Valid()
      modifies this`pos
      ensures Valid() && Agrees(r, ParseKey(old(Rest())))
      ensures r.Some? ==> pos > old(pos)
    {
      hide JsonText.GetQuoted, SkipSpace;
      var key := GetQuotedString();
      if key.None? || !NulFree(key.value) {
        return None;
      }
      SkipWhitespaces();
      if Current() != ':' {
        return None;
      }
      SkipChar();
      return key;
    }
  }

  // ----- the functions, one turn at a time ---------------------------------

  function Prepend(a: string, r: Option<string>): Option<string> {
    if r.None? then None else Some(a + r.value)
  }

  lemma PrependTwice(a: string, b: string, r: Option<string>)
    ensures Prepend(a, Prepend(b, r)) == Prepend(a + b, r)
  {
    if r.Some? {
      assert a + (b + r.value) == a + b + r.value;
    }
  }

  lemma PrependNothing(r: Option<string>)
    ensures Prepend([], r) == r
  {
    if r.Some? {
      assert [] + r.value == r.value;
    }
  }

  lemma UnescapeEnd(s: string)
    requires s == [] || s[0] == NUL
    ensures JsonText.Unescape(s) == Some([])
  {
  }

  lemma QuoteNotFirst(t: string, n: nat)
    requires n > 0 && JsonText.SkipQuoted(t) == Some(n + 1)
    ensures t != [] && t[0] != '\"' && t[0] != NUL
  {
  }

  lemma ItemsTurn(lib: Numbers, s: string, nesting: nat, sofar: seq<Json>)
    ensures ParseItems(lib, s, nesting, sofar) ==
            if Peek(s) == NUL || ParseValue(lib, s, nesting).Fail? then Fail
            else
              var items := sofar + [ParseValue(lib, s, nesting).value];
              var t := SkipSpace(ParseValue(lib, s, nesting).rest);
              if Peek(t) == ',' then ParseItems(lib, SkipSpace(t[1..]), nesting, items)
              else if Peek(t) == ']' then Ok(items, t[1..])
              else Fail
  {
    hide ParseValue, SkipSpace;
  }

  lemma MembersTurn(lib: Numbers, s: string, nesting: nat, sofar: seq<Member>)
    ensures ParseMembers(lib, s, nesting, sofar) ==
            if Peek(s) == NUL || ParseKey(s).Fail? then Fail
            else
              var k := ParseKey(s);
              var v := ParseValue(lib, k.rest, nesting);
              if v.Fail? || GetValue(sofar, k.value).Some? then Fail
              else
                var ms := sofar + [Member(k.value, v.value)];
                var t := SkipSpace(v.rest);
                if Peek(t) == ',' then ParseMembers(lib, SkipSpace(t[1..]), nesting, ms)
                else if Peek(t) == '}' then Ok(ms, t[1..])
                else Fail
  {
    hide ParseValue, ParseKey, SkipSpace, GetValue;
  }

  /** `json_parse_string`; text behind the value is ignored. */
  method ParseJson(lib: Numbers, text: string) returns (r: Option<Json>)
    ensures match ParseText(lib, text)
            case Fail => r == None
            case Ok(v, _) => r == Some(v)
  {
    hide ParseValue;
    var cursor := new Cursor(text);
    if StartsWith(text, BOM) {
      cursor.Advance(3);
    }
    r := cursor.ReadValue(lib, 0);
  }
}
