/** Masks given as numbers: the value stored is the one the numeral writes, in any of the
  three bases. */
module BitNumbers {
  import opened CString
  import opened Wrappers
  import opened BitNames
  import Libc

  const LOWER := "0123456789abcdef"
  const UPPER := "0123456789ABCDEF"

  function Power(base: nat, k: nat): nat {
    if k == 0 then 1 else base * Power(base, k - 1)
  }

  /** The number that digits write, the highest place first. */
  function Sum(ds: seq<nat>, base: nat): nat {
    if ds == [] then 0 else ds[0] * Power(base, |ds| - 1) + Sum(ds[1..], base)
  }

  /** The text consists of those digits, each in either case. */
  predicate Writes(text: string, ds: seq<nat>, base: nat) {
    && |text| == |ds| && 2 <= base <= 16
    && forall i :: 0 <= i < |ds| ==> ds[i] < base && (text[i] == LOWER[ds[i]] || text[i] == UPPER[ds[i]])
  }

  /** How a numeral shows its base: with `0x` or `0X`, with `0`, or with neither. */
  predicate Shown(prefix: string, text: string, base: nat) {
    || (base == 16 && (prefix == "0x" || prefix == "0X") && text != "")
    || (base == 8 && prefix == "0")
    || (base == 10 && prefix == "" && text != "" && text[0] != '0')
  }

  // ----- digits ---------------------------------------------------------------

  lemma DigitIs(c: char, d: nat)
    requires d < 16 && (c == LOWER[d] || c == UPPER[d])
    ensures DigitValue(c) == d && !IsSpace(c) && c != '+' && c != '-'
  {
    if d < 10 {
      assert LOWER[d] == UPPER[d] == '0' + d as char;
    } else {
      assert LOWER[d] == 'a' + (d - 10) as char && UPPER[d] == 'A' + (d - 10) as char;
    }
  }

  lemma {:induction false} SumLast(ds: seq<nat>, base: nat)
    requires ds != []
    ensures Sum(ds, base) == Sum(ds[..|ds| - 1], base) * base + ds[|ds| - 1]
  {
    var init, last := ds[..|ds| - 1], ds[|ds| - 1];
    if |ds| > 1 {
      SumLast(ds[1..], base);
      assert ds[1..][..|ds| - 2] == init[1..];
      var high, tail := Power(base, |ds| - 2), Sum(init[1..], base);
      assert Power(base, |ds| - 1) == base * high;
      Distribute(ds[0], base, high, tail, last);
    } else {
      assert ds[1..] == [] && init == [];
    }
  }

  lemma Distribute(d: nat, base: nat, high: nat, tail: nat, last: nat)
    ensures d * (base * high) + (tail * base + last) == (d * high + tail) * base + last
  {
    assert d * (base * high) == d * high * base;
  }

  lemma {:induction false} ValueIsSum(text: string, ds: seq<nat>, base: nat)
    requires Writes(text, ds, base)
    ensures ValueOf(text, base) == Sum(ds, base)
  {
    if ds != [] {
      var k := |ds| - 1;
      SumLast(ds, base);
      ValueIsSum(text[..k], ds[..k], base);
      DigitIs(text[k], ds[k]);
    }
  }

  /** A text that does not carry the digits on. */
  predicate Stops(tail: string, base: nat) {
    tail == "" || DigitValue(tail[0]) >= base
  }

  lemma {:induction false} RunIsWhole(text: string, ds: seq<nat>, base: nat, tail: string)
    requires Writes(text, ds, base) && Stops(tail, base)
    ensures DigitRun(text + tail, base) == |text|
  {
    if ds == [] {
      assert text + tail == tail;
    } else {
      assert (text + tail)[1..] == text[1..] + tail;
      DigitIs(text[0], ds[0]);
      RunIsWhole(text[1..], ds[1..], base, tail);
    }
  }

  // ----- strtol ---------------------------------------------------------------

  predicate IsSign(sign: string) {
    sign == "" || sign == "+" || sign == "-"
  }

  function Signed(sign: string, v: nat): int {
    if sign == "-" then 0 - v as int else v
  }

  lemma SignRead(sign: string, t: string)
    requires IsSign(sign) && t != "" && IsDigit(t[0]) && Magnitude(t).1 > 0
    ensures Strtol(sign + t) == Long(Signed(sign, Magnitude(t).0), |sign| + Magnitude(t).1)
  {
    hide Magnitude;
    assert (sign + t)[|sign|..] == t;
    assert sign == "" ==> sign + t == t;
  }

  /** `strtol` reads the numeral whole, with its value. */
  lemma StrtolReads(sign: string, prefix: string, text: string, ds: seq<nat>, base: nat, tail: string)
    requires IsSign(sign) && Shown(prefix, text, base) && Writes(text, ds, base) && Stops(tail, base)
    requires prefix + text == "0" ==> tail == "" || (tail[0] != 'x' && tail[0] != 'X')
    ensures Strtol(sign + (prefix + (text + tail))) == Long(Signed(sign, Sum(ds, base)), |sign| + |prefix| + |text|)
  {
    hide Strtol, Writes, Stops, Sum;
    if base == 8 {
      OctalReads(sign, text, ds, tail);
    } else {
      OtherReads(sign, prefix, text, ds, base, tail);
    }
  }

  lemma OctalReads(sign: string, text: string, ds: seq<nat>, tail: string)
    requires IsSign(sign) && Writes(text, ds, 8) && Stops(tail, 8)
    requires text == "" ==> tail == "" || (tail[0] != 'x' && tail[0] != 'X')
    ensures Strtol(sign + ("0" + (text + tail))) == Long(Signed(sign, Sum(ds, 8)), |sign| + 1 + |text|)
  {
    hide ValueOf, Sum, DigitRun, Strtol, Writes, Stops, IsHex, IsDigit;
    var t, all := "0" + (text + tail), "0" + text;
    assert "0" + text == "0" ==> text == "";
    NumeralStart("0", text, ds, 8, tail);
    ZeroInFront(text, ds);
    assert t == all + tail && t[0..] == t && (all + tail)[..|all|] == all;
    RunIsWhole(all, [0] + ds, 8, tail);
    ValueIsSum(all, [0] + ds, 8);
    SignRead(sign, t);
  }

  lemma OtherReads(sign: string, prefix: string, text: string, ds: seq<nat>, base: nat, tail: string)
    requires IsSign(sign) && base != 8 && Shown(prefix, text, base) && Writes(text, ds, base) && Stops(tail, base)
    ensures Strtol(sign + (prefix + (text + tail))) == Long(Signed(sign, Sum(ds, base)), |sign| + |prefix| + |text|)
  {
    hide ValueOf, Sum, DigitRun, Strtol, Writes, Stops, IsHex, IsDigit;
    var t, skip := prefix + (text + tail), |prefix|;
    assert prefix + text != "0" by { assert base == 10 ==> (prefix + text)[0] == text[0]; }
    NumeralStart(prefix, text, ds, base, tail);
    assert t[skip..] == text + tail && (text + tail)[..|text|] == text;
    RunIsWhole(text, ds, base, tail);
    ValueIsSum(text, ds, base);
    SignRead(sign, t);
  }

  lemma ZeroInFront(text: string, ds: seq<nat>)
    requires Writes(text, ds, 8)
    ensures Writes("0" + text, [0] + ds, 8) && Sum([0] + ds, 8) == Sum(ds, 8)
  {
    hide Sum;
    LeadingZeroSum(ds, 8);
  }

  lemma LeadingZeroSum(ds: seq<nat>, base: nat)
    ensures Sum([0] + ds, base) == Sum(ds, base)
  {
    assert ([0] + ds)[1..] == ds;
  }

  /** The prefix tells the base. */
  lemma NumeralStart(prefix: string, text: string, ds: seq<nat>, base: nat, tail: string)
    requires Shown(prefix, text, base) && Writes(text, ds, base)
    requires prefix + text == "0" ==> tail == "" || (tail[0] != 'x' && tail[0] != 'X')
    ensures var t := prefix + (text + tail);
            && t != "" && IsDigit(t[0]) && (IsHex(t) <==> base == 16) && (base == 10 <==> t[0] != '0')
  {
    var t := prefix + (text + tail);
    if text != "" {
      DigitIs(text[0], ds[0]);
    }
    if base == 16 {
      assert t[2] == text[0];
    } else if base == 8 {
      assert text != "" ==> t[1] == text[0];
      assert text == "" && tail != "" ==> t[1] == tail[0];
    } else {
      assert t[0] == text[0];
    }
  }

  // ----- parse_bits -----------------------------------------------------------

  /** A number, with spaces around it and a sign allowed, is stored when it fits 16 bits and
    refused otherwise; a minus sign leaves nothing but zero. */
  lemma NumberStored(before: string, sign: string, prefix: string, text: string, ds: seq<nat>, base: nat, after: string,
                     bits: seq<Bit>)
    requires AllSpace(before) && AllSpace(after)
    requires IsSign(sign) && Shown(prefix, text, base) && Writes(text, ds, base)
    ensures var n := Sum(ds, base);
            Parse(before + (sign + (prefix + (text + after))), bits) ==
            if n <= 0xFFFF && (sign == "-" ==> n == 0) then Some(n as bv16) else None
  {
    hide Strtol, Writes, Sum, SkipSpace, Tokens, MaskOf;
    var s := sign + (prefix + (text + after));
    SpaceStops(after, base);
    StrtolReads(sign, prefix, text, ds, base, after);
    NumberStart(sign, prefix, text, ds, base, after);
    SkipSpacePrefix(before, s);
    NothingToSkip(s);
    assert s[|sign| + |prefix| + |text|..] == after;
    SkipAll(after);
  }

  lemma SpaceStops(after: string, base: nat)
    requires AllSpace(after) && base <= 16
    ensures Stops(after, base) && (after == "" || (after[0] != 'x' && after[0] != 'X'))
  {
  }

  lemma SkipAll(after: string)
    requires AllSpace(after)
    ensures SkipSpace(after) == ""
  {
    assert after + "" == after;
    SkipSpacePrefix(after, "");
  }

  lemma NumberStart(sign: string, prefix: string, text: string, ds: seq<nat>, base: nat, tail: string)
    requires IsSign(sign) && Shown(prefix, text, base) && Writes(text, ds, base)
    ensures var s := sign + (prefix + (text + tail)); s != "" && !IsSpace(s[0])
    ensures |prefix| + |text| > 0
  {
    if prefix == "" {
      DigitIs(text[0], ds[0]);
    }
  }

  /** A number with anything but spaces behind it is the start of a name. */
  lemma NumberThenMore(before: string, sign: string, prefix: string, text: string, ds: seq<nat>, base: nat, tail: string,
                       bits: seq<Bit>)
    requires AllSpace(before) && !AllSpace(tail) && Stops(tail, base)
    requires IsSign(sign) && Shown(prefix, text, base) && Writes(text, ds, base)
    requires prefix + text == "0" ==> tail == "" || (tail[0] != 'x' && tail[0] != 'X')
    ensures Parse(before + (sign + (prefix + (text + tail))), bits) ==
            MaskOf(bits, Tokens(sign + (prefix + (text + tail))), 0)
  {
    hide Strtol, Writes, Sum, SkipSpace, Tokens, MaskOf, Stops;
    var s := sign + (prefix + (text + tail));
    StrtolReads(sign, prefix, text, ds, base, tail);
    NumberStart(sign, prefix, text, ds, base, tail);
    SkipSpacePrefix(before, s);
    NothingToSkip(s);
    assert s[|sign| + |prefix| + |text|..] == tail;
    if SkipSpace(tail) == "" {
      SkipLeaves(tail);
    }
  }

  lemma {:induction false} SkipLeaves(s: string)
    requires SkipSpace(s) == ""
    ensures AllSpace(s)
  {
    if s != "" {
      SkipLeaves(s[1..]);
    }
  }

  // ----- every number has its numerals ----------------------------------------

  predicate IsBase(base: nat) {
    base == 8 || base == 10 || base == 16
  }

  function DigitsOf(n: nat, base: nat): (ds: seq<nat>)
    requires IsBase(base)
    ensures ds != [] && forall i :: 0 <= i < |ds| ==> ds[i] < base
    ensures n > 0 ==> ds[0] > 0
  {
    if n < base then [n] else DigitsOf(n / base, base) + [n % base]
  }

  lemma {:induction false} DigitsSum(n: nat, base: nat)
    requires IsBase(base)
    ensures Sum(DigitsOf(n, base), base) == n
  {
    var ds := DigitsOf(n, base);
    if n < base {
      assert ds[1..] == [] && Power(base, 0) == 1;
    } else {
      hide Sum, Power;
      DigitsSum(n / base, base);
      assert ds[..|ds| - 1] == DigitsOf(n / base, base);
      SumLast(ds, base);
    }
  }

  function Spelled(ds: seq<nat>, upper: bool): (text: string)
    requires forall i :: 0 <= i < |ds| ==> ds[i] < 16
    ensures |text| == |ds|
  {
    seq(|ds|, i requires 0 <= i < |ds| => if upper then UPPER[ds[i]] else LOWER[ds[i]])
  }

  lemma SpelledWrites(n: nat, base: nat, upper: bool)
    requires IsBase(base)
    ensures var ds := DigitsOf(n, base);
            var text := Spelled(ds, upper);
            Writes(text, ds, base) && text != "" && (n > 0 ==> text[0] != '0') && Sum(ds, base) == n
  {
    hide Sum, DigitsOf;
    DigitsSum(n, base);
    var ds := DigitsOf(n, base);
    if n > 0 {
      NotZero(ds[0]);
    }
  }

  lemma NotZero(d: nat)
    requires 0 < d < 16
    ensures LOWER[d] != '0' && UPPER[d] != '0'
  {
  }

  lemma {:induction false} DecimalSpelled(n: nat)
    ensures Libc.Decimal(n) == Spelled(DigitsOf(n, 10), false)
  {
    assert forall d :: 0 <= d < 10 ==> LOWER[d] == Libc.Digit(d);
    if n >= 10 {
      DecimalSpelled(n / 10);
    }
  }

  function Stored(n: nat): Option<bv16> {
    if n <= 0xFFFF then Some(n as bv16) else None
  }

  lemma DecimalStored(n: nat, before: string, sign: string, after: string, bits: seq<Bit>)
    requires AllSpace(before) && AllSpace(after) && (sign == "" || sign == "+")
    ensures Parse(before + (sign + (Libc.Decimal(n) + after)), bits) == Stored(n)
  {
    hide Parse, DigitsOf, Sum, Spelled, Writes;
    DecimalSpelled(n);
    SpelledWrites(n, 10, false);
    var text := Libc.Decimal(n) + after;
    if n > 0 {
      assert "" + text == text;
      NumberStored(before, sign, "", Libc.Decimal(n), DigitsOf(n, 10), 10, after, bits);
    } else {
      assert Libc.Decimal(0) == "0" && "0" + ("" + after) == text;
      NothingWritten();
      NumberStored(before, sign, "0", "", [], 8, after, bits);
    }
  }

  lemma NothingWritten()
    ensures Writes("", [], 8) && Sum([], 8) == 0
  {
  }

  lemma SpelledStored(n: nat, base: nat, prefix: string, before: string, sign: string, upper: bool, after: string,
                      bits: seq<Bit>)
    requires AllSpace(before) && AllSpace(after) && (sign == "" || sign == "+")
    requires (base == 16 && (prefix == "0x" || prefix == "0X")) || (base == 8 && prefix == "0")
    ensures Parse(before + (sign + (prefix + (Spelled(DigitsOf(n, base), upper) + after))), bits) == Stored(n)
  {
    hide Parse, DigitsOf, Sum, Spelled, Writes;
    SpelledWrites(n, base, upper);
    NumberStored(before, sign, prefix, Spelled(DigitsOf(n, base), upper), DigitsOf(n, base), base, after, bits);
  }

  /** The decimal, hexadecimal and octal numerals of any number. */
  lemma EveryNumberStored(n: nat, before: string, sign: string, upper: bool, after: string, bits: seq<Bit>)
    requires AllSpace(before) && AllSpace(after) && (sign == "" || sign == "+")
    ensures Parse(before + (sign + (Libc.Decimal(n) + after)), bits) == Stored(n)
    ensures Parse(before + (sign + ("0x" + (Spelled(DigitsOf(n, 16), upper) + after))), bits) == Stored(n)
    ensures Parse(before + (sign + ("0X" + (Spelled(DigitsOf(n, 16), upper) + after))), bits) == Stored(n)
    ensures Parse(before + (sign + ("0" + (Spelled(DigitsOf(n, 8), upper) + after))), bits) == Stored(n)
  {
    hide *;
    DecimalStored(n, before, sign, after, bits);
    SpelledStored(n, 16, "0x", before, sign, upper, after, bits);
    SpelledStored(n, 16, "0X", before, sign, upper, after, bits);
    SpelledStored(n, 8, "0", before, sign, upper, after, bits);
  }
}
