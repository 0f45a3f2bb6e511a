/** The serializer of parson as a recursive printer: the text that
  `json_serialize_to_buffer_r` is to produce. */
module JsonPrinter {
  import opened Wrappers
  import opened CString
  import opened Libc
  import opened JsonValue
  import JsonText

  /** `is_pretty` and the global `parson_escape_slashes`. */
  datatype Style = Style(pretty: bool, slashes: bool)

  /** `append_indent` */
  function Indent(level: nat): (s: string)
    ensures AllSpace(s) && |s| == 4 * level
  {
    if level == 0 then "" else "    " + Indent(level - 1)
  }

  function Pad(st: Style, level: nat): (s: string)
    ensures AllSpace(s)
  {
    if st.pretty then Indent(level) else ""
  }

  function Break(st: Style): (s: string)
    ensures AllSpace(s)
  {
    if st.pretty then "\n" else ""
  }

  /** What follows element `i` of `n`. */
  function Separator(i: nat, n: nat, st: Style): string {
    (if i + 1 < n then "," else "") + Break(st)
  }

  function Colon(st: Style): string {
    if st.pretty then ": " else ":"
  }

  function Print(lib: Numbers, v: Json, level: nat, st: Style): string
    decreases v
  {
    match v
    case Null => "null"
    case Boolean(b) => if b then "true" else "false"
    case Number(n) => lib.format(n)
    case String(s) => JsonText.Quote(s, st.slashes)
    case Array(items) =>
      if items == [] then "[]"
      else "[" + Break(st) + PrintItems(lib, items, 0, level + 1, st) + Pad(st, level) + "]"
    case Object(ms) =>
      if ms == [] then "{}"
      else "{" + Break(st) + PrintMembers(lib, ms, 0, level + 1, st) + Pad(st, level) + "}"
  }

  /** The elements from `i` on. */
  function PrintItems(lib: Numbers, items: seq<Json>, i: nat, level: nat, st: Style): string
    requires i <= |items|
    decreases items, |items| - i
  {
    if i == |items| then ""
    else Pad(st, level) + Print(lib, items[i], level, st) + Separator(i, |items|, st)
         + PrintItems(lib, items, i + 1, level, st)
  }

  /** The members from `i` on; each value is looked up by its name. */
  function PrintMembers(lib: Numbers, ms: seq<Member>, i: nat, level: nat, st: Style): string
    requires i <= |ms|
    decreases ms, |ms| - i
  {
    if i == |ms| then ""
    else
      var k := IndexOf(ms, ms[i].name);
      assert k <= i;
      Pad(st, level) + JsonText.Quote(ms[i].name, st.slashes) + Colon(st)
      + Print(lib, ms[k].value, level, st) + Separator(i, |ms|, st)
      + PrintMembers(lib, ms, i + 1, level, st)
  }
}
