/** Bit masks shown as names: `_addstr`, the bit-field branches of `pdisp`, and the
  array join of the write path. */
module BitDisplay {
  import opened CString
  import opened Wrappers
  import opened BitNames
  import opened JsonValue

  const STR_SIZE: nat := 192
  const ARRAY_SIZE: nat := 208
  const JOIN_SIZE: nat := 128

  /** `sepstr`, and whether names are quoted (`outfmt == 2`). */
  datatype Format = Format(separator: string, quoted: bool)

  function Piece(fmt: Format, name: string): string {
    if fmt.quoted then "\"" + name + "\"" else name
  }

  /** The names with separators between them. */
  function Joined(fmt: Format, names: seq<string>): string {
    if names == [] then ""
    else if |names| == 1 then Piece(fmt, names[0])
    else Piece(fmt, names[0]) + fmt.separator + Joined(fmt, names[1..])
  }

  /** One more name, if it fits the buffer with everything that comes with it. */
  function Added(fmt: Format, size: nat, text: string, name: string): string {
    var longer := text + (if text == "" then "" else fmt.separator) + Piece(fmt, name);
    if |longer| < size then longer else text
  }

  function AddedAll(fmt: Format, size: nat, text: string, names: seq<string>): string
    decreases |names|
  {
    if names == [] then text else AddedAll(fmt, size, Added(fmt, size, text, names[0]), names[1..])
  }

  predicate Hits(val: bv16, mask: bv16) {
    val & mask != 0
  }

  /** The labels of the entries that share a bit with the mask, in table order. */
  function Names(val: bv16, bits: seq<Bit>): seq<string> {
    if bits == [] then []
    else (if Hits(val, bits[0].mask) then [bits[0].name] else []) + Names(val, bits[1..])
  }

  /** A character array that holds a C string. */
  class Buffer {
    const size: nat
    var text: string

    ghost predicate Valid()
      reads this
    {
      |text| < size
    }

    constructor (size: nat)
      requires 0 < size
      ensures Valid() && this.size == size && text == ""
    {
      this.size, text := size, "";
    }

    /** `strcat`, for which the caller has to have room. */
    method StrCat(s: string)
      requires Valid() && |text| + |s| < size
      modifies this
      ensures Valid() && text == old(text) + s
    {
      text := text + s;
    }

    /** `_addstr` */
    method AddStr(fmt: Format, name: string)
      requires Valid()
      modifies this
      ensures Valid() && text == Added(fmt, size, old(text), name)
    {
      var len := |text|;
      var need := (if len != 0 then |fmt.separator| else 0) + |name| + (if fmt.quoted then 2 else 0) + 1;
      if len + need > size {
        return;
      }
      if len != 0 {
        StrCat(fmt.separator);
      }
      if fmt.quoted {
        StrCat("\"");
      }
      StrCat(name);
      if fmt.quoted {
        StrCat("\"");
        PieceInSteps(old(text) + if len != 0 then fmt.separator else "", name);
      }
    }
  }

  lemma PieceInSteps(text: string, name: string)
    ensures text + "\"" + name + "\"" == text + ("\"" + name + "\"")
  {
  }

  /** The FUNC and NTC branches of `pdisp`: the text shown, or the text handed to the
    JSON parser. */
  method Display(val: bv16, bits: seq<Bit>, fmt: Format) returns (text: string)
    ensures var str := AddedAll(fmt, 192, "", Names(val, bits));
            |str| < 192 && text == if fmt.quoted then "[ " + str + " ]" else str
  {
    hide AddedAll, Names, Hits;
    var str := new Buffer(STR_SIZE);
    DisplayStart(val, bits, fmt);
    for i := 0 to |bits|
      invariant str.Valid() && fresh(str) && str.size == STR_SIZE
      invariant AddedAll(fmt, STR_SIZE, str.text, Names(val, bits[i..])) ==
                AddedAll(fmt, STR_SIZE, "", Names(val, bits))
    {
      NamesStep(val, bits, i);
      AddedStep(fmt, STR_SIZE, str.text, bits[i].name, Names(val, bits[i + 1..]));
      if Hits(val, bits[i].mask) {
        str.AddStr(fmt, bits[i].name);
      }
    }
    DisplayEnd(val, bits, fmt, str.text);
    if fmt.quoted {
      var temp := new Buffer(ARRAY_SIZE);
      temp.StrCat("[ ");
      temp.StrCat(str.text);
      temp.StrCat(" ]");
      return temp.text;
    }
    return str.text;
  }

  lemma DisplayStart(val: bv16, bits: seq<Bit>, fmt: Format)
    ensures Names(val, bits[0..]) == Names(val, bits)
  {
    assert bits[0..] == bits;
  }

  lemma DisplayEnd(val: bv16, bits: seq<Bit>, fmt: Format, text: string)
    ensures AddedAll(fmt, STR_SIZE, text, Names(val, bits[|bits|..])) == text
  {
    assert bits[|bits|..] == [];
  }

  lemma NamesStep(val: bv16, bits: seq<Bit>, i: nat)
    requires i < |bits|
    ensures Names(val, bits[i..]) ==
            (if Hits(val, bits[i].mask) then [bits[i].name] else []) + Names(val, bits[i + 1..])
  {
    assert bits[i..][1..] == bits[i + 1..];
  }

  lemma AddedStep(fmt: Format, size: nat, text: string, name: string, names: seq<string>)
    ensures AddedAll(fmt, size, text, [name] + names) == AddedAll(fmt, size, Added(fmt, size, text, name), names)
    ensures [] + names == names
  {
    assert ([name] + names)[1..] == names;
  }

  // ----- the names that were kept -------------------------------------------

  /** The names taken into the buffer, behind those already there: a name that does not
    fit is left out, a later one may still fit. */
  function Kept(fmt: Format, size: nat, done: seq<string>, names: seq<string>): seq<string>
    decreases |names|
  {
    if names == [] then done
    else Kept(fmt, size, if |Joined(fmt, done + [names[0]])| < size then done + [names[0]] else done, names[1..])
  }

  lemma {:induction false} JoinedSnoc(fmt: Format, names: seq<string>, name: string)
    ensures Joined(fmt, names + [name]) ==
            Joined(fmt, names) + (if names == [] then "" else fmt.separator) + Piece(fmt, name)
    decreases |names|
  {
    hide Piece;
    if |names| == 1 {
      assert (names + [name])[1..] == [name];
    } else if |names| > 1 {
      assert (names + [name])[1..] == names[1..] + [name];
      JoinedSnoc(fmt, names[1..], name);
    }
  }

  predicate AllNonEmpty(names: seq<string>) {
    forall i :: 0 <= i < |names| ==> names[i] != ""
  }

  lemma JoinedNonEmpty(fmt: Format, names: seq<string>)
    requires AllNonEmpty(names)
    ensures Joined(fmt, names) == "" <==> names == []
  {
  }

  /** The display is the join of the kept names. */
  lemma {:induction false} AddedAllIsJoin(fmt: Format, size: nat, done: seq<string>, names: seq<string>)
    requires AllNonEmpty(done) && AllNonEmpty(names)
    ensures AddedAll(fmt, size, Joined(fmt, done), names) == Joined(fmt, Kept(fmt, size, done, names))
    decreases |names|
  {
    hide Joined, Piece;
    if names != [] {
      JoinedNonEmpty(fmt, done);
      JoinedSnoc(fmt, done, names[0]);
      var longer := done + [names[0]];
      AddedAllIsJoin(fmt, size, if |Joined(fmt, longer)| < size then longer else done, names[1..]);
    }
  }

  /** Nothing is dropped when all names fit together. */
  lemma {:induction false} KeptAll(fmt: Format, size: nat, done: seq<string>, names: seq<string>)
    requires |Joined(fmt, done + names)| < size
    ensures Kept(fmt, size, done, names) == done + names
    decreases |names|
  {
    hide Joined;
    if names == [] {
      assert done + names == done;
    } else {
      var longer := done + [names[0]];
      assert longer + names[1..] == done + names;
      JoinedGrows(fmt, longer, names[1..]);
      KeptAll(fmt, size, longer, names[1..]);
    }
  }

  lemma {:induction false} JoinedGrows(fmt: Format, done: seq<string>, more: seq<string>)
    ensures |Joined(fmt, done)| <= |Joined(fmt, done + more)|
    decreases |more|
  {
    hide Joined;
    if more == [] {
      assert done + more == done;
    } else {
      JoinedSnoc(fmt, done, more[0]);
      JoinedGrows(fmt, done + [more[0]], more[1..]);
      assert done + [more[0]] + more[1..] == done + more;
    }
  }

  /** Only names that were given are kept. */
  lemma {:induction false} KeptAmong(fmt: Format, size: nat, done: seq<string>, names: seq<string>)
    ensures forall n :: n in Kept(fmt, size, done, names) ==> n in done || n in names
    decreases |names|
  {
    hide Joined;
    if names != [] {
      KeptAmong(fmt, size, if |Joined(fmt, done + [names[0]])| < size then done + [names[0]] else done, names[1..]);
    }
  }

  // ----- the join of the write path -----------------------------------------

  /** What the loop over the array adds to the text; it stops at the first string that
    does not fit. */
  function JoinedArray(text: string, items: seq<Json>): string
    decreases |items|
  {
    if items == [] then text
    else if !items[0].String? then JoinedArray(text, items[1..])
    else
      var s := CStr(items[0].s);
      if |text| + |s| + 2 > JOIN_SIZE then text
      else JoinedArray(text + (if text == "" then "" else ",") + s, items[1..])
  }

  method JoinArray(items: seq<Json>) returns (text: string)
    ensures |text| < JOIN_SIZE && text == JoinedArray("", items)
  {
    var temp := new Buffer(JOIN_SIZE);
    assert items[0..] == items;
    for j := 0 to |items|
      invariant temp.Valid() && fresh(temp) && temp.size == JOIN_SIZE
      invariant JoinedArray(temp.text, items[j..]) == JoinedArray("", items)
    {
      assert items[j..][1..] == items[j + 1..];
      if !items[j].String? {
        continue;
      }
      var ap := CStr(items[j].s);
      if |temp.text| + |ap| + 2 > JOIN_SIZE {
        return temp.text;
      }
      ghost var before := temp.text;
      if |temp.text| != 0 {
        temp.StrCat(",");
      }
      temp.StrCat(ap);
      assert temp.text == before + (if before == "" then "" else ",") + ap;
    }
    assert items[|items|..] == [];
    return temp.text;
  }

  function Strings(names: seq<string>): (items: seq<Json>)
    ensures |items| == |names| && forall i :: 0 <= i < |names| ==> items[i] == String(names[i])
  {
    seq(|names|, i requires 0 <= i < |names| => String(names[i]))
  }

  /** An array of names is joined back to the plain display. */
  lemma {:induction false} JoinedArrayIsJoin(done: seq<string>, names: seq<string>)
    requires AllNonEmpty(done) && AllNonEmpty(names) && (forall n :: n in names ==> NulFree(n))
    requires |Joined(Format(",", false), done + names)| + 1 < JOIN_SIZE
    ensures JoinedArray(Joined(Format(",", false), done), Strings(names)) == Joined(Format(",", false), done + names)
    decreases |names|
  {
    hide Joined;
    var fmt := Format(",", false);
    if names == [] {
      assert done + names == done;
    } else {
      var name, longer := names[0], done + [names[0]];
      assert longer + names[1..] == done + names;
      assert Strings(names)[1..] == Strings(names[1..]);
      JoinedNonEmpty(fmt, done);
      JoinedSnoc(fmt, done, name);
      JoinedGrows(fmt, longer, names[1..]);
      WholeCStr(name);
      JoinedArrayIsJoin(longer, names[1..]);
    }
  }

  lemma {:induction false} WholeCStr(s: string)
    requires NulFree(s)
    ensures CStr(s) == s
  {
    if s != [] {
      WholeCStr(s[1..]);
    }
  }

  /** The texts among the elements of an array. */
  function Texts(items: seq<Json>): seq<string> {
    if items == [] then []
    else (if items[0].String? then [CStr(items[0].s)] else []) + Texts(items[1..])
  }

  /** The join stops before the first text that does not leave a character of the 128
    unused. */
  predicate StopsAt(text: string, done: seq<string>, more: seq<string>, k: nat)
    requires k <= |more|
  {
    && text == Joined(Format(",", false), done + more[..k])
    && (k < |more| ==> |text| + |more[k]| + 2 > 128)
    && forall j :: 0 <= j < k ==> |Joined(Format(",", false), done + more[..j])| + |more[j]| + 2 <= 128
  }

  lemma {:induction false} JoinedArrayStops(done: seq<string>, items: seq<Json>) returns (k: nat)
    requires AllNonEmpty(done) && AllNonEmpty(Texts(items))
    ensures k <= |Texts(items)|
    ensures StopsAt(JoinedArray(Joined(Format(",", false), done), items), done, Texts(items), k)
    decreases |items|
  {
    hide Joined, CStr;
    var fmt := Format(",", false);
    var text, more := Joined(fmt, done), Texts(items);
    assert done + more[..0] == done;
    k := 0;
    if items != [] {
      if !items[0].String? {
        assert more == Texts(items[1..]);
        k := JoinedArrayStops(done, items[1..]);
      } else {
        var s := CStr(items[0].s);
        assert more[0] == s && more[1..] == Texts(items[1..]);
        if |text| + |s| + 2 <= JOIN_SIZE {
          JoinedNonEmpty(fmt, done);
          JoinedSnoc(fmt, done, s);
          var k' := JoinedArrayStops(done + [s], items[1..]);
          k := k' + 1;
          forall j | 0 <= j <= k'
            ensures done + [s] + more[1..][..j] == done + more[..j + 1]
          {
          }
        }
      }
    }
  }
}
