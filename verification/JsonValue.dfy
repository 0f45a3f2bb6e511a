/** The JSON tree of parson: values, and objects as parallel name/value lists
  in insertion order. */
module JsonValue {
  import opened Wrappers
  import opened CString
  import opened Libc

  /** `MAX_NESTING` */
  const MAX_NESTING := 2048

  datatype Json =
    | Null
    | Boolean(b: bool)
    | Number(n: real)
    | String(s: string)
    | Array(items: seq<Json>)
    | Object(members: seq<Member>)

  datatype Member = Member(name: string, value: Json)

  /** The first position holding `name`, or the number of members. */
  function IndexOf(ms: seq<Member>, name: string): (i: nat)
    ensures i <= |ms|
    ensures i < |ms| ==> ms[i].name == name
    ensures forall k :: 0 <= k < i ==> ms[k].name != name
  {
    if ms == [] || ms[0].name == name then 0 else 1 + IndexOf(ms[1..], name)
  }

  /** `json_object_getn_value` */
  function GetValue(ms: seq<Member>, name: string): (r: Option<Json>)
    ensures r.Some? <==> exists i :: 0 <= i < |ms| && ms[i].name == name
  {
    var i := IndexOf(ms, name);
    if i < |ms| then
      assert ms[i].name == name;
      Some(ms[i].value)
    else
      None
  }

  predicate UniqueNames(ms: seq<Member>) {
    forall i, j :: 0 <= i < j < |ms| ==> ms[i].name != ms[j].name
  }

  lemma UniqueIndex(ms: seq<Member>, i: nat)
    requires UniqueNames(ms) && i < |ms|
    ensures IndexOf(ms, ms[i].name) == i
    ensures GetValue(ms, ms[i].name) == Some(ms[i].value)
  {
  }

  /** Object keys are unique C strings, all the way down, and numbers are
    finite doubles. */
  ghost predicate WellFormed(lib: Numbers, v: Json) {
    match v
    case Number(n) => lib.isDouble(n)
    case Array(items) => forall i :: 0 <= i < |items| ==> WellFormed(lib, items[i])
    case Object(ms) =>
      && UniqueNames(ms)
      && (forall i :: 0 <= i < |ms| ==> NulFree(ms[i].name))
      && (forall i :: 0 <= i < |ms| ==> WellFormed(lib, ms[i].value))
    case _ => true
  }

  /** No value of the tree sits deeper than the parser allows when the root is
    at depth `nesting`. */
  ghost predicate FitsNesting(v: Json, nesting: nat) {
    && nesting <= MAX_NESTING
    && match v
       case Array(items) => forall i :: 0 <= i < |items| ==> FitsNesting(items[i], nesting + 1)
       case Object(ms) => forall i :: 0 <= i < |ms| ==> FitsNesting(ms[i].value, nesting + 1)
       case _ => true
  }
}
