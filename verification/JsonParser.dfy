/** The recursive-descent parser of parson, on the text from the cursor on. */
module JsonParser {
  import opened Wrappers
  import opened CString
  import opened Libc
  import opened JsonValue
  import JsonText

  /** What a parsing function delivers: NULL, or a value and the text the cursor
    is left on. */
  datatype Parsed<+T> = Fail | Ok(value: T, rest: string)

  /** `parse_value` */
  function ParseValue(lib: Numbers, s: string, nesting: nat): (r: Parsed<Json>)
    ensures r.Ok? ==> |r.rest| <= |s|
    decreases |s|, 1
  {
    if nesting > MAX_NESTING then Fail
    else
      var t := SkipSpace(s);
      var c := Peek(t);
      if c == '{' then ParseObject(lib, t, nesting + 1)
      else if c == '[' then ParseArray(lib, t, nesting + 1)
      else if c == '\"' then ParseString(t)
      else if c == 'f' || c == 't' then ParseBoolean(t)
      else if c == '-' || IsDigit(c) then ParseNumber(lib, t)
      else if c == 'n' then ParseNull(t)
      else Fail
  }

  /** `parse_string_value` */
  function ParseString(s: string): (r: Parsed<Json>)
    ensures r.Ok? ==> |r.rest| <= |s|
  {
    var q := JsonText.GetQuoted(s);
    if q.None? then Fail else Ok(String(q.value.0), s[q.value.1..])
  }

  /** `parse_boolean_value` */
  function ParseBoolean(s: string): (r: Parsed<Json>)
    ensures r.Ok? ==> |r.rest| <= |s|
  {
    if StartsWith(s, "true") then Ok(Boolean(true), s[4..])
    else if StartsWith(s, "false") then Ok(Boolean(false), s[5..])
    else Fail
  }

  /** `parse_number_value` */
  function ParseNumber(lib: Numbers, s: string): (r: Parsed<Json>)
    ensures r.Ok? ==> |r.rest| <= |s|
  {
    var n := lib.strtod(s);
    if n.OutOfRange? || !IsDecimal(s[..n.consumed]) then Fail
    else Ok(Number(n.value), s[n.consumed..])
  }

  /** `parse_null_value` */
  function ParseNull(s: string): (r: Parsed<Json>)
    ensures r.Ok? ==> |r.rest| <= |s|
  {
    if StartsWith(s, "null") then Ok(Null, s[4..]) else Fail
  }

  /** `parse_array_value` */
  function ParseArray(lib: Numbers, s: string, nesting: nat): (r: Parsed<Json>)
    ensures r.Ok? ==> |r.rest| <= |s|
    decreases |s|, 0
  {
    if Peek(s) != '[' then Fail
    else
      var t := SkipSpace(s[1..]);
      if Peek(t) == ']' then Ok(Array([]), t[1..])
      else
        var items := ParseItems(lib, t, nesting, []);
        if items.Fail? then Fail else Ok(Array(items.value), items.rest)
  }

  /** The loop of `parse_array_value` and the test of the closing bracket, with
    the elements read so far. */
  function ParseItems(lib: Numbers, s: string, nesting: nat, sofar: seq<Json>): (r: Parsed<seq<Json>>)
    ensures r.Ok? ==> |r.rest| <= |s|
    decreases |s|, 2
  {
    if Peek(s) == NUL then Fail
    else
      var v := ParseValue(lib, s, nesting);
      if v.Fail? then Fail
      else
        var items := sofar + [v.value];
        var t := SkipSpace(v.rest);
        if Peek(t) == ',' then ParseItems(lib, SkipSpace(t[1..]), nesting, items)
        else if Peek(t) == ']' then Ok(items, t[1..])
        else Fail
  }

  /** `parse_object_value` */
  function ParseObject(lib: Numbers, s: string, nesting: nat): (r: Parsed<Json>)
    ensures r.Ok? ==> |r.rest| <= |s|
    decreases |s|, 0
  {
    if Peek(s) != '{' then Fail
    else
      var t := SkipSpace(s[1..]);
      if Peek(t) == '}' then Ok(Object([]), t[1..])
      else
        var ms := ParseMembers(lib, t, nesting, []);
        if ms.Fail? then Fail else Ok(Object(ms.value), ms.rest)
  }

  /** The key and the colon of one turn of the loop of `parse_object_value`. */
  function ParseKey(s: string): (r: Parsed<string>)
    ensures r.Ok? ==> |r.rest| < |s| && NulFree(r.value)
  {
    var q := JsonText.GetQuoted(s);
    if q.None? || !NulFree(q.value.0) then Fail
    else
      var t := SkipSpace(s[q.value.1..]);
      if Peek(t) != ':' then Fail else Ok(q.value.0, t[1..])
  }

  /** The loop of `parse_object_value` and the test of the closing brace, with
    the members read so far. */
  function ParseMembers(lib: Numbers, s: string, nesting: nat, sofar: seq<Member>): (r: Parsed<seq<Member>>)
    ensures r.Ok? ==> |r.rest| <= |s|
    decreases |s|, 2
  {
    if Peek(s) == NUL then Fail
    else
      var k := ParseKey(s);
      if k.Fail? then Fail
      else
        var v := ParseValue(lib, k.rest, nesting);
        if v.Fail? || GetValue(sofar, k.value).Some? then Fail
        else
          var ms := sofar + [Member(k.value, v.value)];
          var t := SkipSpace(v.rest);
          if Peek(t) == ',' then ParseMembers(lib, SkipSpace(t[1..]), nesting, ms)
          else if Peek(t) == '}' then Ok(ms, t[1..])
          else Fail
  }

  /** The first three octets of a UTF-8 byte order mark. */
  const BOM := [0xEF as char, 0xBB as char, 0xBF as char]

  /** `json_parse_string` */
  function ParseText(lib: Numbers, s: string): Parsed<Json> {
    ParseValue(lib, if StartsWith(s, BOM) then s[3..] else s, 0)
  }
}
