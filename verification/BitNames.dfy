/** Bit masks given as numbers or as lists of names: `parse_bits`. */
module BitNames {
  import opened CString
  import opened Wrappers

  datatype Bit = Bit(mask: bv16, name: string)

  /** `char label[32]` */
  const LABEL_SIZE: nat := 32

  function Or(a: bv16, b: bv16): bv16 {
    a | b
  }

  lemma OrCommutes(a: bv16, b: bv16)
    ensures Or(a, b) == Or(b, a)
  {
  }

  lemma OrAssociates(a: bv16, b: bv16, c: bv16)
    ensures Or(Or(a, b), c) == Or(a, Or(b, c))
  {
  }

  lemma OrAbsorbs(a: bv16)
    ensures Or(a, a) == a && Or(a, 0) == a && Or(0, a) == a
  {
  }

  // ----- numbers ------------------------------------------------------------

  /** `strtol`: the value, unbounded, and the number of characters used. */
  datatype Long = Long(value: int, consumed: nat)

  /** The value of a digit in some base up to 16, or 16. */
  function DigitValue(c: char): (d: nat)
    ensures d <= 16
  {
    if '0' <= c <= '9' then (c - '0') as nat
    else if 'a' <= c <= 'f' then (c - 'a') as nat + 10
    else if 'A' <= c <= 'F' then (c - 'A') as nat + 10
    else 16
  }

  function DigitRun(s: string, base: nat): (n: nat)
    ensures n <= |s|
    ensures forall i :: 0 <= i < n ==> DigitValue(s[i]) < base
    ensures n < |s| ==> DigitValue(s[n]) >= base
  {
    if s == [] || DigitValue(s[0]) >= base then 0 else 1 + DigitRun(s[1..], base)
  }

  function ValueOf(digits: string, base: nat): nat {
    if digits == [] then 0
    else ValueOf(digits[..|digits| - 1], base) * base + DigitValue(digits[|digits| - 1])
  }

  /** A hexadecimal prefix in front of a digit. */
  predicate IsHex(t: string) {
    |t| > 2 && t[0] == '0' && (t[1] == 'x' || t[1] == 'X') && DigitValue(t[2]) < 16
  }

  /** `strtoul(t, &end, 0)` on a text that starts with neither a space nor a sign. */
  function Magnitude(t: string): (r: (nat, nat))
    ensures r.1 <= |t|
  {
    var base := if IsHex(t) then 16 else if Peek(t) == '0' then 8 else 10;
    var skip := if IsHex(t) then 2 else 0;
    var n := DigitRun(t[skip..], base);
    if n == 0 then (0, 0) else (ValueOf(t[skip..][..n], base), skip + n)
  }

  /** `strtol(s, &end, 0)` on a text that does not start with a space. */
  function Strtol(s: string): (r: Long)
    ensures r.consumed <= |s|
  {
    var sign := if Peek(s) == '-' || Peek(s) == '+' then 1 else 0;
    var (v, n) := Magnitude(s[sign..]);
    if n == 0 then Long(0, 0) else Long(if Peek(s) == '-' then 0 - v as int else v, sign + n)
  }

  /** A number with nothing but spaces behind it. */
  predicate IsNumber(s: string) {
    Strtol(s).consumed > 0 && SkipSpace(s[Strtol(s).consumed..]) == []
  }

  // ----- names --------------------------------------------------------------

  predicate IsSeparator(c: char) {
    IsSpace(c) || c == ',' || c == '|' || c == '+'
  }

  lemma SeparatorExactly(c: char)
    ensures IsSeparator(c) <==> c as int in {9, 10, 11, 12, 13, 32, 43, 44, 124}
  {
  }

  function SkipSeparators(s: string): (r: string)
    ensures |r| <= |s| && (r == [] || !IsSeparator(r[0]))
  {
    if s != [] && IsSeparator(s[0]) then SkipSeparators(s[1..]) else s
  }

  function TokenLength(s: string): (n: nat)
    ensures n <= |s| && (forall i :: 0 <= i < n ==> !IsSeparator(s[i])) && (n < |s| ==> IsSeparator(s[n]))
  {
    if s == [] || IsSeparator(s[0]) then 0 else 1 + TokenLength(s[1..])
  }

  /** The maximal runs of characters that are not separators. */
  function Tokens(s: string): seq<string>
    decreases |s|
  {
    var t := SkipSeparators(s);
    if t == [] then [] else [t[..TokenLength(t)]] + Tokens(t[TokenLength(t)..])
  }

  /** What fits the name buffer. */
  function Clip(token: string): string {
    if |token| < LABEL_SIZE then token else token[..LABEL_SIZE - 1]
  }

  /** `strcasecmp(a, b) == 0` */
  predicate SameName(a: string, b: string) {
    Upper(a) == Upper(b)
  }

  /** The mask of the first entry of that name. */
  function Find(bits: seq<Bit>, name: string): (r: Option<bv16>)
    ensures r.None? <==> forall i :: 0 <= i < |bits| ==> !SameName(bits[i].name, name)
  {
    if bits == [] then None
    else if SameName(bits[0].name, name) then Some(bits[0].mask) else Find(bits[1..], name)
  }

  /** The first entry of a name counts. */
  lemma {:induction false} FindFirst(bits: seq<Bit>, name: string, i: nat)
    requires i < |bits| && SameName(bits[i].name, name) && forall j :: 0 <= j < i ==> !SameName(bits[j].name, name)
    ensures Find(bits, name) == Some(bits[i].mask)
  {
    hide SameName;
    if i > 0 {
      assert !SameName(bits[0].name, name);
      FindFirst(bits[1..], name, i - 1);
    }
  }

  /** The masks of all tokens together with `mask`, if all are known. */
  function MaskOf(bits: seq<Bit>, tokens: seq<string>, mask: bv16): Option<bv16>
    decreases |tokens|
  {
    if tokens == [] then Some(mask)
    else
      match Find(bits, Clip(tokens[0]))
      case None => None
      case Some(m) => MaskOf(bits, tokens[1..], Or(mask, m))
  }

  /** What `parse_bits` accepts, and the mask it then stores. */
  function Parse(value: string, bits: seq<Bit>): Option<bv16> {
    var p := SkipSpace(value);
    if p == [] then None
    else if IsNumber(p) then
      if 0 <= Strtol(p).value <= 0xFFFF then Some(Strtol(p).value as bv16) else None
    else MaskOf(bits, Tokens(p), 0)
  }

  // ----- the function itself ------------------------------------------------

  method SkipSpaces(value: string, from: nat) returns (p: nat)
    requires from <= |value|
    ensures from <= p <= |value| && value[p..] == SkipSpace(value[from..])
  {
    p := from;
    while p < |value| && IsSpace(value[p])
      invariant from <= p <= |value| && SkipSpace(value[p..]) == SkipSpace(value[from..])
    {
      assert value[p..][1..] == value[p + 1..];
      p := p + 1;
    }
    assert p < |value| ==> value[p..][0] == value[p];
  }

  /** The next name, cut to its buffer, and the position behind the whole run. */
  method NextLabel(value: string, from: nat) returns (name: string, p: nat)
    requires from < |value| && !IsSeparator(value[from])
    ensures p == from + TokenLength(value[from..]) && from < p <= |value|
    ensures name == Clip(value[from..p])
  {
    name, p := "", from;
    while p < |value| && !IsSeparator(value[p])
      invariant from <= p <= |value| && name == Clip(value[from..p])
      invariant TokenLength(value[from..]) == p - from + TokenLength(value[p..])
    {
      assert value[p..][0] == value[p] && value[p..][1..] == value[p + 1..];
      assert value[from..p + 1] == value[from..p] + [value[p]];
      if |name| < LABEL_SIZE - 1 {
        name := name + [value[p]];
      }
      p := p + 1;
    }
    assert p < |value| ==> value[p..][0] == value[p];
  }

  method FindLabel(bits: seq<Bit>, name: string) returns (m: Option<bv16>)
    ensures m == Find(bits, name)
  {
    var i := 0;
    while i < |bits|
      invariant 0 <= i <= |bits| && Find(bits[i..], name) == Find(bits, name)
    {
      assert bits[i..][0] == bits[i] && bits[i..][1..] == bits[i + 1..];
      if SameName(bits[i].name, name) {
        return Some(bits[i].mask);
      }
      i := i + 1;
    }
    return None;
  }

  /** The list of names of `parse_bits`. */
  method ParseNames(value: string, from: nat, bits: seq<Bit>) returns (r: int, mask: bv16)
    requires from <= |value|
    ensures r == if MaskOf(bits, Tokens(value[from..]), 0).Some? then 0 else -1
    ensures r == 0 ==> mask == MaskOf(bits, Tokens(value[from..]), 0).value
  {
    hide *;
    mask := 0;
    var p := from;
    ghost var expected := MaskOf(bits, Tokens(value[p..]), 0);
    NamesStart(bits, value, p);
    while p < |value|
      invariant p <= |value| && Remaining(bits, value, p, mask, expected)
    {
      while p < |value| && IsSeparator(value[p])
        invariant p <= |value| && Remaining(bits, value, p, mask, expected)
      {
        SeparatorStep(bits, value, p, mask, expected);
        p := p + 1;
      }
      if p == |value| {
        break;
      }
      NameStep(bits, value, p, mask, expected);
      var name;
      name, p := NextLabel(value, p);
      var m := FindLabel(bits, name);
      if m.None? {
        return -1, 0;
      }
      mask := Or(mask, m.value);
    }
    NamesEnd(bits, value, mask, expected);
    return 0, mask;
  }

  /** The rest of the list, added to the mask so far, is the result. */
  predicate Remaining(bits: seq<Bit>, value: string, p: nat, mask: bv16, expected: Option<bv16>) {
    p <= |value| && MaskOf(bits, Tokens(value[p..]), mask) == expected
  }

  lemma NamesStart(bits: seq<Bit>, value: string, p: nat)
    requires p <= |value|
    ensures Remaining(bits, value, p, 0, MaskOf(bits, Tokens(value[p..]), 0))
  {
  }

  lemma NamesEnd(bits: seq<Bit>, value: string, mask: bv16, expected: Option<bv16>)
    requires Remaining(bits, value, |value|, mask, expected)
    ensures expected == Some(mask)
  {
  }

  lemma SeparatorStep(bits: seq<Bit>, value: string, p: nat, mask: bv16, expected: Option<bv16>)
    requires p < |value| && IsSeparator(value[p]) && Remaining(bits, value, p, mask, expected)
    ensures Remaining(bits, value, p + 1, mask, expected)
  {
    hide MaskOf;
    assert value[p..][1..] == value[p + 1..];
  }

  lemma NameStep(bits: seq<Bit>, value: string, p: nat, mask: bv16, expected: Option<bv16>)
    requires p < |value| && !IsSeparator(value[p]) && Remaining(bits, value, p, mask, expected)
    ensures var n := TokenLength(value[p..]);
            var m := Find(bits, Clip(value[p..p + n]));
            if m.None? then expected == None else Remaining(bits, value, p + n, Or(mask, m.value), expected)
  {
    hide Or, Find, Clip;
    var t, n := value[p..], TokenLength(value[p..]);
    assert t[0] == value[p] && SkipSeparators(t) == t;
    assert t[..n] == value[p..p + n] && t[n..] == value[p + n..];
  }

  /** `parse_bits` */
  method ParseBits(value: string, bits: seq<Bit>) returns (r: int, mask: bv16)
    ensures r == if Parse(value, bits).Some? then 0 else -1
    ensures r == 0 ==> mask == Parse(value, bits).value
  {
    hide Strtol, Tokens, MaskOf, SkipSpace;
    var p := SkipSpaces(value, 0);
    assert value[0..] == value;
    if p == |value| {
      return -1, 0;
    }
    var num := Strtol(value[p..]);
    if num.consumed != 0 {
      assert value[p..][num.consumed..] == value[p + num.consumed..];
      var end := SkipSpaces(value, p + num.consumed);
      if end == |value| {
        if num.value < 0 || num.value > 0xFFFF {
          return -1, 0;
        }
        return 0, num.value as bv16;
      }
    }
    r, mask := ParseNames(value, p, bits);
  }
}
