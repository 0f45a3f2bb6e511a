/** C strings and the <ctype.h> classifiers the sources rely on.

  A C `char` is modelled by a Dafny `char` (only codes 0..255 occur in the
  program; every statement below also holds of larger codes).  A C string is
  the sequence of characters before its terminator, so reading at the end of
  the sequence yields NUL. */
module CString {
  const NUL := '\0'
  const TAB := '\t'
  const NEWLINE := '\n'
  const VTAB := '\U{0B}'
  const FORMFEED := '\U{0C}'
  const RETURN := '\r'
  const BACKSPACE := '\U{08}'

  /** The character a `char *` cursor standing before `s` reads. */
  function Peek(s: string): char {
    if s == [] then NUL else s[0]
  }

  predicate IsSpace(c: char) {
    c == ' ' || c == TAB || c == NEWLINE || c == VTAB || c == FORMFEED || c == RETURN
  }

  predicate IsDigit(c: char) {
    '0' <= c <= '9'
  }

  predicate IsLetter(c: char) {
    'a' <= c <= 'z' || 'A' <= c <= 'Z'
  }

  function ToUpper(c: char): char {
    if 'a' <= c <= 'z' then c - 'a' + 'A' else c
  }

  /** `toupper` applied to every character. */
  function Upper(s: string): (r: string)
    ensures |r| == |s|
    ensures forall i :: 0 <= i < |s| ==> r[i] == ToUpper(s[i])
  {
    seq(|s|, i requires 0 <= i < |s| => ToUpper(s[i]))
  }

  /** The six characters of `isspace`, and what `toupper` does, in the C locale. */
  lemma CTypeExactly(c: char)
    ensures IsSpace(c) <==> c as int in {9, 10, 11, 12, 13, 32}
    ensures ToUpper(c) as int == if 97 <= c as int <= 122 then c as int - 32 else c as int
  {
  }

  predicate NulFree(s: string) {
    NUL !in s
  }

  predicate AllSpace(s: string) {
    forall i :: 0 <= i < |s| ==> IsSpace(s[i])
  }

  /** The C string a pointer to the start of `s` denotes. */
  function CStr(s: string): (r: string)
    ensures r <= s
    ensures NulFree(r)
    ensures |r| == |s| || s[|r|] == NUL
  {
    if s == [] || s[0] == NUL then [] else [s[0]] + CStr(s[1..])
  }

  /** `while (isspace(*s)) s++` */
  function SkipSpace(s: string): (r: string)
    ensures |r| <= |s|
    ensures r == [] || !IsSpace(r[0])
  {
    if s != [] && IsSpace(s[0]) then SkipSpace(s[1..]) else s
  }

  lemma {:induction false} SkipSpacePrefix(ws: string, s: string)
    requires AllSpace(ws)
    ensures SkipSpace(ws + s) == SkipSpace(s)
  {
    if ws == [] {
      assert ws + s == s;
    } else {
      assert (ws + s)[1..] == ws[1..] + s;
      SkipSpacePrefix(ws[1..], s);
    }
  }

  lemma NothingToSkip(s: string)
    requires !IsSpace(Peek(s))
    ensures SkipSpace(s) == s
  {
  }

  /** `strncmp(s, token, strlen(token)) == 0` */
  predicate StartsWith(s: string, token: string) {
    |token| <= |s| && s[..|token|] == token
  }

  lemma DropSlice<T>(s: seq<T>, n: nat, a: nat, e: nat)
    requires n + a <= n + e <= |s|
    ensures s[n..][a..e] == s[n + a..n + e]
  {
  }

  lemma TakeDrop<T>(s: seq<T>, n: nat, m: nat)
    requires n <= m <= |s|
    ensures s[..m][n..] == s[n..][..m - n]
  {
  }
}
