/** UTF-8: the checks of parson.c, the encoder of RFC 3629 section 3 and the
  grammar of RFC 3629 section 4. */
module Utf8 {
  import opened CString

  // ----- RFC 3629 ----------------------------------------------------------

  predicate ScalarValue(cp: int) {
    0 <= cp < 0xD800 || 0xDFFF < cp <= 0x10FFFF
  }

  /** Section 3: the octets that encode a scalar value. */
  function Encode(cp: int): (s: string)
    requires ScalarValue(cp)
    ensures 1 <= |s| <= 4
  {
    if cp < 0x80 then [cp as char]
    else if cp < 0x800 then [(0xC0 + cp / 64) as char, Tail(cp)]
    else if cp < 0x10000 then [(0xE0 + cp / 4096) as char, Tail(cp / 64), Tail(cp)]
    else [(0xF0 + cp / 262144) as char, Tail(cp / 4096), Tail(cp / 64), Tail(cp)]
  }

  /** An octet 10xxxxxx carrying the low six bits of `n`. */
  function Tail(n: nat): (c: char)
    ensures 0x80 <= c as int < 0xC0
  {
    (0x80 + n % 64) as char
  }

  predicate Range(c: char, lo: int, hi: int) {
    lo <= c as int <= hi
  }

  /** Section 4: UTF8-1, UTF8-2, UTF8-3 and UTF8-4. */
  predicate Utf8Char(s: string) {
    || (|s| == 1 && Range(s[0], 0, 0x7F))
    || (|s| == 2 && Range(s[0], 0xC2, 0xDF) && Range(s[1], 0x80, 0xBF))
    || (|s| == 3 && Range(s[2], 0x80, 0xBF) &&
        (|| (s[0] as int == 0xE0 && Range(s[1], 0xA0, 0xBF))
         || (Range(s[0], 0xE1, 0xEC) && Range(s[1], 0x80, 0xBF))
         || (s[0] as int == 0xED && Range(s[1], 0x80, 0x9F))
         || (Range(s[0], 0xEE, 0xEF) && Range(s[1], 0x80, 0xBF))))
    || (|s| == 4 && Range(s[2], 0x80, 0xBF) && Range(s[3], 0x80, 0xBF) &&
        (|| (s[0] as int == 0xF0 && Range(s[1], 0x90, 0xBF))
         || (Range(s[0], 0xF1, 0xF3) && Range(s[1], 0x80, 0xBF))
         || (s[0] as int == 0xF4 && Range(s[1], 0x80, 0x8F))))
  }

  /** Section 4: UTF8-octets. */
  ghost predicate Utf8Octets(s: string) {
    s == [] || exists k :: 1 <= k <= 4 && k <= |s| && Utf8Char(s[..k]) && Utf8Octets(s[k..])
  }

  // ----- parson.c ----------------------------------------------------------

  /** IS_CONT: the octet has the form 10xxxxxx. */
  predicate IsCont(c: char) {
    c as int < 256 && c as int / 64 == 2
  }

  /** `num_bytes_in_utf8_sequence` */
  function SequenceLength(c: char): (n: nat)
    ensures n <= 4
  {
    var b := c as int;
    if b == 0xC0 || b == 0xC1 || b > 0xF4 || IsCont(c) then 0
    else if b / 128 == 0 then 1
    else if b / 32 == 6 then 2
    else if b / 16 == 14 then 3
    else if b / 8 == 30 then 4
    else 0
  }

  /** The octet at offset `i`; reading past the end meets the terminator. */
  function ByteAt(s: string, i: nat): char {
    if i < |s| then s[i] else NUL
  }

  /** `verify_utf8_sequence`: the length and code point of the sequence at the
    front of `s`, or length zero when it is refused. */
  function Verify(s: string): (r: (nat, int))
    ensures r.0 <= 4
    ensures r.0 > 0 && s != [] ==> r.0 <= |s|
  {
    var b0, b1, b2, b3 := ByteAt(s, 0) as int, ByteAt(s, 1) as int, ByteAt(s, 2) as int, ByteAt(s, 3) as int;
    var len := SequenceLength(ByteAt(s, 0));
    var cp :=
      if len == 1 then b0
      else if len == 2 && IsCont(ByteAt(s, 1)) then (b0 % 32) * 64 + b1 % 64
      else if len == 3 && IsCont(ByteAt(s, 1)) && IsCont(ByteAt(s, 2)) then
        ((b0 % 16) * 64 + b1 % 64) * 64 + b2 % 64
      else if len == 4 && IsCont(ByteAt(s, 1)) && IsCont(ByteAt(s, 2)) && IsCont(ByteAt(s, 3)) then
        (((b0 % 8) * 64 + b1 % 64) * 64 + b2 % 64) * 64 + b3 % 64
      else -1;
    if cp < 0 then (0, 0)
    else if (cp < 0x80 && len > 1) || (cp < 0x800 && len > 2) || (cp < 0x10000 && len > 3) then (0, 0)
    else if cp > 0x10FFFF then (0, 0)
    else if 0xD800 <= cp <= 0xDFFF then (0, 0)
    else (len, cp)
  }

  /** `is_valid_utf8`: `mem` is the C string the pointer denotes, of which the
    first `len` characters are to be checked. */
  method IsValidUtf8(mem: string, len: nat) returns (ok: bool)
    requires len <= |mem|
    ensures ok == ValidPrefix(mem, len)
  {
    hide Verify, ValidPrefix;
    var i := 0;
    assert mem[0..] == mem;
    while i < len
      invariant 0 <= i <= |mem|
      invariant ValidPrefix(mem, len) == ValidPrefix(mem[i..], if i < len then len - i else 0)
    {
      var r := Verify(mem[i..]);
      ValidFrom(mem, i, len);
      if r.0 == 0 {
        return false;
      }
      i := i + r.0;
    }
    ValidNone(mem[i..]);
    return true;
  }

  lemma ValidNone(mem: string)
    ensures ValidPrefix(mem, 0)
  {
  }

  lemma ValidFrom(mem: string, i: nat, len: nat)
    requires i < len <= |mem|
    ensures var n := Verify(mem[i..]).0;
            i + n <= |mem| &&
            (ValidPrefix(mem[i..], len - i) <==>
             n > 0 && ValidPrefix(mem[i + n..], if i + n < len then len - i - n else 0))
  {
    hide Verify;
    var n := Verify(mem[i..]).0;
    assert mem[i..][n..] == mem[i + n..];
  }

  /** What the loop of `is_valid_utf8` decides. */
  predicate ValidPrefix(mem: string, len: nat)
    requires len <= |mem|
  {
    len == 0 ||
    var n := Verify(mem).0;
    n > 0 && ValidPrefix(mem[n..], if n < len then len - n else 0)
  }

  // ----- the two agree -----------------------------------------------------

  /** A sequence is accepted exactly when the grammar derives it, ... */
  lemma VerifyIsGrammar(s: string)
    requires s != []
    ensures forall k :: 1 <= k <= 4 && k <= |s| ==> (Utf8Char(s[..k]) <==> Verify(s).0 == k)
  {
  }

  /** ... and then it decodes to the scalar value it encodes. */
  lemma VerifyDecodes(cp: int, rest: string)
    requires ScalarValue(cp)
    ensures Verify(Encode(cp) + rest) == (|Encode(cp)|, cp)
    ensures Utf8Char(Encode(cp))
  {
    VerifyEncoded(cp, Encode(cp) + rest);
    VerifyIsGrammar(Encode(cp) + rest);
    assert (Encode(cp) + rest)[..|Encode(cp)|] == Encode(cp);
  }

  lemma VerifyEncoded(cp: int, s: string)
    requires ScalarValue(cp) && Encode(cp) <= s
    ensures Verify(s) == (|Encode(cp)|, cp)
  {
    var e := Encode(cp);
    assert forall i :: 0 <= i < |e| ==> ByteAt(s, i) == e[i];
    if cp < 0x80 {
    } else if cp < 0x800 {
    } else if cp < 0x10000 {
      Verify3(cp, s);
    } else {
      Verify4(cp, s);
    }
  }

  lemma Verify3(cp: int, s: string)
    requires ScalarValue(cp) && 0x800 <= cp < 0x10000 && Encode(cp) <= s
    ensures Verify(s) == (3, cp)
  {
    assert SequenceLength(s[0]) == 3;
    assert IsCont(s[1]) && IsCont(s[2]);
    SixBits(cp);
    SixBits(cp / 64);
  }

  lemma Verify4(cp: int, s: string)
    requires ScalarValue(cp) && 0x10000 <= cp && Encode(cp) <= s
    ensures Verify(s) == (4, cp)
  {
    assert SequenceLength(s[0]) == 4;
    assert IsCont(s[1]) && IsCont(s[2]) && IsCont(s[3]);
    SixBits(cp);
    SixBits(cp / 64);
    SixBits(cp / 4096);
  }

  lemma SixBits(n: nat)
    ensures n == (n / 64) * 64 + n % 64
    ensures Tail(n) as int % 64 == n % 64
    ensures n / 64 / 64 == n / 4096
    ensures n / 4096 / 64 == n / 262144
  {
  }

  /** What is accepted encodes the code point reported for it. */
  lemma VerifyEncodes(s: string)
    requires s != [] && Verify(s).0 > 0
    ensures ScalarValue(Verify(s).1) && s[..Verify(s).0] == Encode(Verify(s).1)
  {
    var (n, cp) := Verify(s);
    assert forall i :: 0 <= i < n ==> ByteAt(s, i) == s[i];
    if n == 2 {
      EncodesBack2(s[0], s[1], cp);
    } else if n == 3 {
      EncodesBack3(s[0], s[1], s[2], cp);
    } else if n == 4 {
      EncodesBack4(s[0], s[1], s[2], s[3], cp);
    }
  }

  lemma EncodesBack2(c0: char, c1: char, cp: int)
    requires ScalarValue(cp) && 0x80 <= cp && SequenceLength(c0) == 2 && IsCont(c1)
    requires cp == (c0 as int % 32) * 64 + c1 as int % 64
    ensures Encode(cp) == [c0, c1]
  {
  }

  lemma EncodesBack3(c0: char, c1: char, c2: char, cp: int)
    requires ScalarValue(cp) && 0x800 <= cp && SequenceLength(c0) == 3 && IsCont(c1) && IsCont(c2)
    requires cp == ((c0 as int % 16) * 64 + c1 as int % 64) * 64 + c2 as int % 64
    ensures Encode(cp) == [c0, c1, c2]
  {
    assert cp / 64 == (c0 as int % 16) * 64 + c1 as int % 64;
  }

  lemma EncodesBack4(c0: char, c1: char, c2: char, c3: char, cp: int)
    requires ScalarValue(cp) && 0x10000 <= cp && SequenceLength(c0) == 4
    requires IsCont(c1) && IsCont(c2) && IsCont(c3)
    requires cp == (((c0 as int % 8) * 64 + c1 as int % 64) * 64 + c2 as int % 64) * 64 + c3 as int % 64
    ensures Encode(cp) == [c0, c1, c2, c3]
  {
    SixBitGroups(c0 as int % 8, c1 as int % 64, c2 as int % 64, c3 as int % 64);
  }

  lemma SixBitGroups(x: nat, y: nat, z: nat, w: nat)
    requires y < 64 && z < 64 && w < 64
    ensures var cp := ((x * 64 + y) * 64 + z) * 64 + w;
            cp % 64 == w && cp / 64 % 64 == z && cp / 4096 % 64 == y && cp / 262144 == x
  {
  }

  /** Over the whole C string (the call of `json_value_init_string`) exactly
    the UTF-8 texts are accepted. */
  lemma {:induction false} WholeStringExact(s: string)
    ensures ValidPrefix(s, |s|) <==> Utf8Octets(s)
    decreases |s|
  {
    if s != [] {
      VerifyIsGrammar(s);
      var n := Verify(s).0;
      if n > 0 {
        WholeStringExact(s[n..]);
        assert Utf8Char(s[..n]);
      }
      if Utf8Octets(s) {
        var k :| 1 <= k <= 4 && k <= |s| && Utf8Char(s[..k]) && Utf8Octets(s[k..]);
        assert k == n;
      }
    }
  }

  /** A sequence that begins before `len` and ends beyond it. */
  ghost predicate Straddles(mem: string, len: nat, a: nat, e: nat) {
    a < len < e <= |mem| && Utf8Octets(mem[..a]) && Utf8Char(mem[a..e])
  }

  ghost predicate CutAcross(mem: string, len: nat) {
    exists a, e :: Straddles(mem, len, a, e)
  }

  /** For a shorter length the check also accepts a text whose last sequence is
    cut off at `len` but complete in memory, and nothing else. */
  lemma {:induction false} PrefixExact(mem: string, len: nat)
    requires len <= |mem|
    ensures ValidPrefix(mem, len) <==>
            Utf8Octets(mem[..len]) || CutAcross(mem, len)
    decreases |mem|, 1
  {
    if len > 0 {
      VerifyIsGrammar(mem);
      var n := Verify(mem).0;
      if 0 < n <= len {
        PrefixStep(mem, len, n);
      } else if n > len {
        assert mem[0..n] == mem[..n];
        assert Straddles(mem, len, 0, n);
      } else {
        forall k, m | 1 <= k <= 4 && k <= m <= |mem|
          ensures !Utf8Char(mem[..m][..k])
        {
          assert mem[..m][..k] == mem[..k];
        }
        forall a: nat, e: nat | Straddles(mem, len, a, e)
          ensures a != 0
        {
          assert mem[0..e] == mem[..e];
        }
      }
    }
  }

  /** One accepted sequence inside the checked part changes nothing. */
  lemma PrefixStep(mem: string, len: nat, n: nat)
    requires 0 < n <= len <= |mem| && n == Verify(mem).0
    ensures ValidPrefix(mem, len) <==>
            Utf8Octets(mem[..len]) || CutAcross(mem, len)
    decreases |mem|, 0
  {
    hide Verify, Utf8Char;
    PrefixExact(mem[n..], len - n);
    OctetsStep(mem, n, len);
    assert mem[..len][n..] == mem[n..][..len - n];
    ghost var tail, rem := mem[n..], len - n;
    if CutAcross(tail, rem) {
      var a, e :| Straddles(tail, rem, a, e);
      StraddleLater(mem, len, n, a, e);
    }
    if CutAcross(mem, len) {
      var a, e :| Straddles(mem, len, a, e);
      StraddleEarlier(mem, len, n, a, e);
    }
  }

  lemma StraddleLater(mem: string, len: nat, n: nat, a: nat, e: nat)
    requires 0 < n <= len <= |mem| && n == Verify(mem).0
    requires Straddles(mem[n..], len - n, a, e)
    ensures Straddles(mem, len, n + a, n + e)
  {
    hide Verify, Utf8Char;
    OctetsStep(mem, n, n + a);
    TakeDrop(mem, n, n + a);
    DropSlice(mem, n, a, e);
  }

  lemma StraddleEarlier(mem: string, len: nat, n: nat, a: nat, e: nat)
    requires 0 < n <= len <= |mem| && n == Verify(mem).0
    requires Straddles(mem, len, a, e)
    ensures a >= n && Straddles(mem[n..], len - n, a - n, e - n)
  {
    hide Verify, Utf8Char;
    NoStraddleAtStart(mem, len, n, e);
    OctetsStep(mem, n, a);
    TakeDrop(mem, n, a);
    DropSlice(mem, n, a - n, e - n);
  }

  lemma NoStraddleAtStart(mem: string, len: nat, n: nat, e: nat)
    requires 0 < n <= len <= |mem| && n == Verify(mem).0
    ensures !Straddles(mem, len, 0, e)
  {
    VerifyIsGrammar(mem);
    if e <= |mem| {
      assert mem[0..e] == mem[..e];
    }
  }

  lemma OctetsStep(mem: string, n: nat, m: nat)
    requires 0 < m <= |mem| && 0 < n == Verify(mem).0
    ensures Utf8Octets(mem[..m]) <==> n <= m && Utf8Octets(mem[..m][n..])
  {
    hide Verify, Utf8Char;
    VerifyIsGrammar(mem);
    forall k | 1 <= k <= 4 && k <= m
      ensures mem[..m][..k] == mem[..k]
    {
    }
    if n <= m {
      assert Utf8Char(mem[..m][..n]);
    }
  }

  /** Such a text exists: the first octet of a two-octet sequence. */
  lemma CutSequenceAccepted()
    ensures var mem := [0xC3 as char, 0xA9 as char]; ValidPrefix(mem, 1) && !Utf8Octets(mem[..1])
  {
    var mem := [0xC3 as char, 0xA9 as char];
    assert Verify(mem).0 == 2;
    assert ValidPrefix(mem[2..], 0);
  }
}
