/** The two C library conversions the JSON code calls for numbers: `sprintf`
  with "%1.17g" and `strtod`.  Their insides are not modelled.  `Lawful` lists
  what the JSON code relies on; `DecimalIntegers` is a concrete pair that obeys
  it, so the laws are known to be satisfiable. */
module Libc {
  import opened CString

  /** `NUM_BUF_SIZE` */
  const NUM_BUF_SIZE := 64

  /** What `strtod` delivers: `OutOfRange` when errno is set or the result is an
    infinity or a NaN, otherwise the value and the number of characters used
    (none at all for a lone minus sign, with value zero). */
  datatype Strtod = OutOfRange | Scanned(value: real, consumed: nat)

  datatype Conversions = Conversions(
    isDouble: real -> bool,
    format: real -> string,
    strtod: string -> Strtod)

  predicate NumberChar(c: char) {
    IsDigit(c) || c == '-' || c == '+' || c == '.' || c == 'e'
  }

  /** `is_decimal`, applied to the characters `strtod` consumed. */
  predicate IsDecimal(t: string) {
    && !(|t| > 1 && t[0] == '0' && t[1] != '.')
    && !(|t| > 2 && t[0] == '-' && t[1] == '0' && t[2] != '.')
    && forall i :: 0 <= i < |t| ==> t[i] != 'x' && t[i] != 'X' && t[i] != NUL
  }

  predicate NumberText(t: string) {
    && 0 < |t| < NUM_BUF_SIZE
    && (t[0] == '-' || IsDigit(t[0]))
    && (forall i :: 0 <= i < |t| ==> NumberChar(t[i]))
    && IsDecimal(t)
  }

  /** A text after which a number must end. */
  predicate Delimited(rest: string) {
    rest == [] || rest[0] == NUL || IsSpace(rest[0]) || rest[0] == ',' || rest[0] == ']' || rest[0] == '}'
  }

  // ----- numerals -----------------------------------------------------------

  /** The length of the run of digits at the front. */
  function Digits(s: string): (n: nat)
    ensures n <= |s|
    ensures forall i :: 0 <= i < n ==> IsDigit(s[i])
    ensures n < |s| ==> !IsDigit(s[n])
  {
    if s == [] || !IsDigit(s[0]) then 0 else 1 + Digits(s[1..])
  }

  function Unsigned(t: string): string {
    if Peek(t) == '-' then t[1..] else t
  }

  predicate Exponent(e: string) {
    && |e| >= 2 && (e[0] == 'e' || e[0] == 'E')
    && var digits := if e[1] == '+' || e[1] == '-' then e[2..] else e[1..];
       digits != [] && Digits(digits) == |digits|
  }

  /** The decimal numerals of section 7.22.1.3 of C11, with at most a minus sign: digits
    with at most one point, one of them at least, and an exponent or none. */
  predicate Decimals(t: string) {
    var u := Unsigned(t);
    var i := Digits(u);
    if i < |u| && u[i] == '.' then
      var j := Digits(u[i + 1..]);
      i + j > 0 && (i + 1 + j == |u| || Exponent(u[i + 1 + j..]))
    else
      i > 0 && (i == |u| || Exponent(u[i..]))
  }

  /** A zero in front of something else than a point. */
  predicate LeadingZero(t: string) {
    var u := Unsigned(t);
    |u| > 1 && u[0] == '0' && u[1] != '.'
  }

  predicate StartsNumber(c: char) {
    c == '-' || IsDigit(c)
  }

  predicate HasX(t: string) {
    'x' in t || 'X' in t
  }

  // ----- the laws -------------------------------------------------------------

  /** The laws hold of the numbers in `isDouble`: finite doubles that the pair carries
    both ways. A subnormal for which `strtod` reports a range error is not one. */
  ghost predicate Lawful(c: Conversions) {
    && (forall s :: c.strtod(s).Scanned? ==> c.strtod(s).consumed <= |s| && c.isDouble(c.strtod(s).value))
    && (forall x :: c.isDouble(x) ==> NumberText(c.format(x)))
    && (forall x, rest :: c.isDouble(x) && Delimited(rest) ==>
          c.strtod(c.format(x) + rest) == Scanned(x, |c.format(x)|))
    && ScansNumerals(c)
  }

  /** What `strtod` uses of a text is a decimal or hexadecimal numeral with all its digits,
    or nothing of a minus sign without digits, which counts as zero; a decimal numeral is used whole up to a delimiter, and its value does not
    depend on what follows it. */
  ghost predicate ScansNumerals(c: Conversions) {
    && (forall s {:trigger Munched(c, s)} :: StartsNumber(Peek(s)) && c.strtod(s).Scanned? ==> Munched(c, s))
    && (forall t {:trigger Decimals(t)} :: Decimals(t) && c.strtod(t).Scanned? ==> c.strtod(t).consumed == |t|)
    && (forall t, rest {:trigger UsesJust(c, t, rest)} ::
          Decimals(t) && (Delimited(rest) || UsesJust(c, t, rest)) ==> c.strtod(t + rest) == c.strtod(t))
  }

  predicate UsesJust(c: Conversions, t: string, rest: string) {
    c.strtod(t + rest).Scanned? && c.strtod(t + rest).consumed == |t|
  }

  predicate Munched(c: Conversions, s: string) {
    c.strtod(s).Scanned? && c.strtod(s).consumed <= |s| ==>
      var k := c.strtod(s).consumed;
      if k == 0 then Peek(s) == '-' && !IsDigit(Peek(s[1..])) && c.strtod(s).value == 0.0
      else (k < |s| ==> !IsDigit(s[k])) && (Decimals(s[..k]) || HasX(s[..k]))
  }

  type Numbers = c: Conversions | Lawful(c) witness DecimalIntegers()

  // ----- a lawful pair: the integers of at most 17 digits ------------------

  function Pow10(k: nat): (p: nat)
    ensures p >= 1
  {
    if k == 0 then 1 else 10 * Pow10(k - 1)
  }

  function Digit(d: nat): char
    requires d < 10
  {
    '0' + d as char
  }

  function Decimal(n: nat): (s: string)
    ensures |s| > 0
    ensures forall i :: 0 <= i < |s| ==> IsDigit(s[i])
    ensures s[0] == '0' ==> n == 0
    ensures n < 10 ==> |s| == 1
  {
    if n < 10 then [Digit(n)] else Decimal(n / 10) + [Digit(n % 10)]
  }

  /** The run of digits at the front of `s`, read after the value `acc`. */
  function ScanDigits(s: string, acc: nat): (r: (nat, nat))
    ensures r.1 <= |s|
  {
    if s == [] || !IsDigit(s[0]) then (acc, 0)
    else
      var (v, k) := ScanDigits(s[1..], 10 * acc + (s[0] - '0') as nat);
      (v, k + 1)
  }

  predicate Is17Digits(x: real) {
    x.Floor as real == x && -(Pow10(17) as int) < x.Floor < Pow10(17)
  }

  function FormatInteger(x: real): string {
    if x.Floor < 0 then "-" + Decimal(-x.Floor) else Decimal(x.Floor)
  }

  lemma SmallInteger(w: int, limit: int)
    requires limit == Pow10(17) && -limit < w < limit
    ensures Is17Digits(w as real)
  {
    hide Pow10;
  }

  function ScanInteger(s: string): (r: Strtod)
    ensures r.Scanned? ==> r.consumed <= |s| && Is17Digits(r.value)
  {
    var signed := s != [] && s[0] == '-';
    var u := if signed then s[1..] else s;
    var (v, k) := ScanDigits(u, 0);
    var limit := Pow10(17);
    var next := Peek(u[k..]);
    var w: int := if k == 0 then 0 else if signed then 0 - v as int else v;
    if v >= limit || next == '.' || next == 'e' || next == 'E' then OutOfRange
    else
      SmallInteger(w, limit);
      Scanned(w as real, if k == 0 then 0 else |s| - |u| + k)
  }

  /** Scanning a decimal numeral leaves its value in the accumulator. */
  lemma {:induction false} ScanAppend(n: nat, tail: string)
    ensures var r := ScanDigits(tail, n); ScanDigits(Decimal(n) + tail, 0) == (r.0, r.1 + |Decimal(n)|)
  {
    if n < 10 {
      assert (Decimal(n) + tail)[1..] == tail;
    } else {
      var d := [Digit(n % 10)];
      assert Decimal(n) + tail == Decimal(n / 10) + (d + tail);
      ScanAppend(n / 10, d + tail);
      assert (d + tail)[1..] == tail;
    }
  }

  lemma {:induction false} DecimalLength(n: nat, k: nat)
    requires n < Pow10(k) && k > 0
    ensures |Decimal(n)| <= k
  {
    if n >= 10 {
      DecimalLength(n / 10, k - 1);
    }
  }

  function DecimalIntegers(): (c: Conversions)
    ensures Lawful(c)
  {
    var c := Conversions(Is17Digits, FormatInteger, ScanInteger);
    LawfulIntegers(c);
    c
  }

  lemma LawfulIntegers(c: Conversions)
    requires c == Conversions(Is17Digits, FormatInteger, ScanInteger)
    ensures Lawful(c)
  {
    forall x | c.isDouble(x)
      ensures NumberText(c.format(x))
    {
      IntegerText(x);
    }
    forall x, rest | c.isDouble(x) && Delimited(rest)
      ensures c.strtod(c.format(x) + rest) == Scanned(x, |c.format(x)|)
    {
      IntegerRoundTrip(x, rest);
    }
    IntegersScanNumerals(c);
  }

  lemma {:induction false} ScanIsDigits(s: string, acc: nat)
    ensures ScanDigits(s, acc).1 == Digits(s)
  {
    if s != [] && IsDigit(s[0]) {
      ScanIsDigits(s[1..], 10 * acc + (s[0] - '0') as nat);
    }
  }

  /** The run of digits ends where it ended before. */
  lemma {:induction false} ScanAgain(u: string, rest: string, acc: nat)
    requires Digits(u) < |u| || rest == [] || !IsDigit(rest[0])
    ensures ScanDigits(u + rest, acc) == ScanDigits(u, acc)
  {
    if u == [] {
      assert u + rest == rest;
    } else if IsDigit(u[0]) {
      assert (u + rest)[1..] == u[1..] + rest;
      ScanAgain(u[1..], rest, 10 * acc + (u[0] - '0') as nat);
    }
  }

  lemma {:induction false} DigitsFurther(u: string, rest: string)
    requires Digits(u) == |u|
    ensures Digits(u + rest) == |u| + Digits(rest)
  {
    if u == [] {
      assert u + rest == rest;
    } else {
      assert (u + rest)[1..] == u[1..] + rest;
      DigitsFurther(u[1..], rest);
    }
  }

  lemma UnsignedFront(t: string, rest: string)
    requires t != []
    ensures Unsigned(t + rest) == Unsigned(t) + rest
  {
  }

  lemma ScanIntegerUses(s: string)
    requires ScanInteger(s).Scanned?
    ensures var u := Unsigned(s);
            && ScanInteger(s).consumed == (if Digits(u) == 0 then 0 else |s| - |u| + Digits(u))
            && (Digits(u) == 0 ==> ScanInteger(s).value == 0.0)
            && (Digits(u) < |u| ==> u[Digits(u)] != '.' && u[Digits(u)] != 'e' && u[Digits(u)] != 'E')
  {
    ScanIsDigits(Unsigned(s), 0);
  }

  lemma IntegersScanNumerals(c: Conversions)
    requires c == Conversions(Is17Digits, FormatInteger, ScanInteger)
    ensures ScansNumerals(c)
  {
    hide ScanInteger, IsDigit;
    forall s | StartsNumber(Peek(s)) && c.strtod(s).Scanned?
      ensures Munched(c, s)
    {
      IntegerMunched(c, s);
    }
    forall t | Decimals(t) && c.strtod(t).Scanned?
      ensures c.strtod(t).consumed == |t|
    {
      ScanIntegerUses(t);
    }
    forall t, rest | Decimals(t) && (Delimited(rest) || UsesJust(c, t, rest))
      ensures c.strtod(t + rest) == c.strtod(t)
    {
      IntegerAgain(c, t, rest);
    }
  }

  lemma IntegerMunched(c: Conversions, s: string)
    requires c == Conversions(Is17Digits, FormatInteger, ScanInteger) && StartsNumber(Peek(s))
    ensures Munched(c, s)
  {
    hide ScanInteger;
    if ScanInteger(s).Scanned? {
      ScanIntegerUses(s);
      var k, u := ScanInteger(s).consumed, Unsigned(s);
      if k > 0 {
        var digits := u[..Digits(u)];
        AllDigits(digits);
        assert Unsigned(s[..k]) == digits;
      }
    }
  }

  lemma {:induction false} AllDigits(s: string)
    requires forall i :: 0 <= i < |s| ==> IsDigit(s[i])
    ensures Digits(s) == |s|
  {
    if s != [] {
      AllDigits(s[1..]);
    }
  }

  lemma IntegerAgain(c: Conversions, t: string, rest: string)
    requires c == Conversions(Is17Digits, FormatInteger, ScanInteger)
    requires Decimals(t) && (Delimited(rest) || UsesJust(c, t, rest))
    ensures ScanInteger(t + rest) == ScanInteger(t)
  {
    hide ScanInteger, Delimited, IsDigit;
    var u := Unsigned(t);
    UnsignedFront(t, rest);
    if Digits(u) == |u| {
      DigitsEnd(c, t, rest);
    }
    SameScan(t, rest);
  }

  /** A text of nothing but digits is not carried on. */
  lemma DigitsEnd(c: Conversions, t: string, rest: string)
    requires c == Conversions(Is17Digits, FormatInteger, ScanInteger)
    requires t != [] && 0 < Digits(Unsigned(t)) == |Unsigned(t)| && (Delimited(rest) || UsesJust(c, t, rest))
    ensures Inert(rest)
  {
    hide ScanInteger;
    UnsignedFront(t, rest);
    DigitsFurther(Unsigned(t), rest);
    if UsesJust(c, t, rest) {
      ScanIntegerUses(t + rest);
    }
  }

  predicate Inert(rest: string) {
    rest == [] || (!IsDigit(rest[0]) && rest[0] != '.' && rest[0] != 'e' && rest[0] != 'E')
  }

  lemma SameScan(t: string, rest: string)
    requires t != [] && (Digits(Unsigned(t)) < |Unsigned(t)| || Inert(rest))
    ensures ScanInteger(t + rest) == ScanInteger(t)
  {
    hide ScanDigits, Pow10;
    var u := Unsigned(t);
    UnsignedFront(t, rest);
    ScanAgain(u, rest, 0);
    ScanIsDigits(u, 0);
    if Digits(u) == |u| {
      assert (u + rest)[|u|..] == rest;
    }
  }

  lemma IntegerText(x: real)
    requires Is17Digits(x)
    ensures NumberText(FormatInteger(x))
  {
    var n: nat := if x.Floor < 0 then -x.Floor else x.Floor;
    DecimalLength(n, 17);
  }

  lemma NothingToScan(rest: string, acc: nat)
    requires Delimited(rest)
    ensures ScanDigits(rest, acc) == (acc, 0)
  {
  }

  lemma IntegerRoundTrip(x: real, rest: string)
    requires Is17Digits(x) && Delimited(rest)
    ensures ScanInteger(FormatInteger(x) + rest) == Scanned(x, |FormatInteger(x)|)
  {
    hide Pow10, ScanDigits, Decimal;
    var n: nat := if x.Floor < 0 then -x.Floor else x.Floor;
    ScanAppend(n, rest);
    NothingToScan(rest, n);
    if x.Floor < 0 {
      assert (FormatInteger(x) + rest)[1..] == Decimal(n) + rest;
    }
  }
}
