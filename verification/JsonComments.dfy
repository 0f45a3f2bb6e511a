/** The comment blanker of parson and the comment-aware parse. */
module JsonComments {
  import opened Wrappers
  import opened CString
  import opened Libc
  import opened JsonValue
  import opened JsonPrinter
  import opened JsonParser
  import JsonText
  import JsonAcceptance
  import JsonRoundTrip

  function Blanks(n: nat): (s: string)
    ensures |s| == n && forall i :: 0 <= i < n ==> s[i] == ' '
  {
    seq(n, _ => ' ')
  }

  /** `strstr`: the offset of the first occurrence of `token`. */
  function Find(s: string, token: string): (r: Option<nat>)
    ensures r.Some? ==> r.value + |token| <= |s| && s[r.value..r.value + |token|] == token
  {
    if StartsWith(s, token) then Some(0)
    else if s == [] then None
    else
      var r := Find(s[1..], token);
      if r.None? then None else Some(r.value + 1)
  }

  lemma {:induction false} FindFirst(s: string, token: string, i: nat)
    requires i <= |s| && StartsWith(s[i..], token)
    ensures Find(s, token).Some? && Find(s, token).value <= i
  {
    if i > 0 {
      assert s[i..] == s[1..][i - 1..];
      FindFirst(s[1..], token, i - 1);
    } else {
      assert s[0..] == s;
    }
  }

  /** The length of the comment at the front of `s`, both tokens included, or None
    when the end token is missing. */
  function CommentLength(s: string, open: string, close: string): (n: Option<nat>)
    requires open != [] && close != [] && StartsWith(s, open)
    ensures n.Some? ==> |open| < n.value <= |s|
  {
    var k := Find(s[|open|..], close);
    if k.None? then None else Some(|open| + k.value + |close|)
  }

  /** What `remove_comments` makes of the text from the cursor on, given the
    flags `in_string` and `escaped`. */
  function Strip(s: string, inString: bool, escaped: bool, open: string, close: string): (r: string)
    requires open != [] && close != []
    ensures |r| == |s|
    decreases |s|
  {
    if s == [] then []
    else if s[0] == '\\' && !escaped then [s[0]] + Strip(s[1..], inString, true, open, close)
    else if s[0] == '\"' && !escaped then [s[0]] + Strip(s[1..], !inString, false, open, close)
    else if !inString && StartsWith(s, open) then
      var n := CommentLength(s, open, close);
      if n.None? then Blanks(|open|) + s[|open|..]
      else Blanks(n.value) + Strip(s[n.value..], false, false, open, close)
    else [s[0]] + Strip(s[1..], inString, false, open, close)
  }

  /** `remove_comments`, in place.  The array holds the characters before the
    terminator. */
  method RemoveComments(a: array<char>, open: string, close: string)
    modifies a
    ensures a[..] == if open == [] || close == [] then old(a[..]) else Strip(old(a[..]), false, false, open, close)
  {
    if open == [] || close == [] {
      return;
    }
    hide Strip, StartsWith, CommentLength;
    ghost var whole := Strip(a[..], false, false, open, close);
    var inString, escaped := false, false;
    var i := 0;
    assert a[0..] == a[..] && a[..0] == [];
    while i < a.Length
      invariant 0 <= i <= a.Length
      invariant whole == a[..i] + Strip(a[i..], inString, escaped, open, close)
    {
      if a[i] == '\\' && !escaped {
        PassOne(a[..], i, inString, escaped, open, close);
        escaped := true;
        i := i + 1;
      } else if !inString && (escaped || a[i] != '\"') && StartsWith(a[i..], open) {
        var end := BlankComment(a, i, open, close, escaped);
        if end.None? {
          return;
        }
        escaped := false;
        i := end.value;
      } else {
        PassOne(a[..], i, inString, escaped, open, close);
        inString := if a[i] == '\"' && !escaped then !inString else inString;
        escaped := false;
        i := i + 1;
      }
    }
    TurnEnd(a[i..], inString, escaped, open, close);
    assert a[i..] == [] && a[..i] + [] == a[..];
  }

  /** A character that is kept, and the flags behind it. */
  lemma PassOne(a: string, i: nat, inString: bool, escaped: bool, open: string, close: string)
    requires i < |a| && open != [] && close != []
    requires inString || (!escaped && (a[i] == '\\' || a[i] == '\"')) || !StartsWith(a[i..], open)
    ensures var backslash, quote := a[i] == '\\' && !escaped, a[i] == '\"' && !escaped;
            a[..i] + Strip(a[i..], inString, escaped, open, close) ==
            a[..i + 1] + Strip(a[i + 1..], if quote then !inString else inString, backslash, open, close)
  {
    hide Strip, StartsWith;
    var here := a[i..];
    assert here[0] == a[i] && here[1..] == a[i + 1..] && a[..i] + [a[i]] == a[..i + 1];
    if a[i] == '\\' && !escaped {
      TurnBackslash(here, inString, escaped, open, close);
      Regroup(a[..i], [a[i]], Strip(a[i + 1..], inString, true, open, close));
    } else if a[i] == '\"' && !escaped {
      TurnQuote(here, inString, escaped, open, close);
      Regroup(a[..i], [a[i]], Strip(a[i + 1..], !inString, false, open, close));
    } else {
      TurnOther(here, inString, escaped, open, close);
      Regroup(a[..i], [a[i]], Strip(a[i + 1..], inString, false, open, close));
    }
  }

  /** The branch of `remove_comments` that has met the start token at `i`: where
    the comment ends, or None when the end token is missing. */
  method BlankComment(a: array<char>, i: nat, open: string, close: string, ghost escaped: bool) returns (end: Option<nat>)
    requires i <= a.Length && open != [] && close != []
    requires Ordinary(a[i..], escaped) && StartsWith(a[i..], open)
    modifies a
    ensures end.Some? ==> i < end.value <= a.Length
    ensures old(a[..i] + Strip(a[i..], false, escaped, open, close)) ==
            if end.None? then a[..] else a[..end.value] + Strip(a[end.value..], false, false, open, close)
  {
    ghost var before := a[..];
    assert before[..i] == a[..i] && before[i..] == a[i..];
    OpenFits(before, i, open);
    hide *;
    var from := i + |open|;
    BlankOut(a, i, from);
    ghost var between := a[..];
    OpenBlanked(before, between, i, from);
    var p := Find(a[from..], close);
    if p.None? {
      BlankedToEnd(before, between, i, open, close, escaped);
      return None;
    }
    var stop := from + p.value + |close|;
    BlankOut(a, from, stop);
    BlanksJoin(before, between, a[..], i, from, stop);
    BlankedTo(before, a[..], i, before[i..], before[from..], stop, p.value, open, close, escaped);
    return Some(stop);
  }

  lemma OpenFits(before: string, i: nat, open: string)
    requires i <= |before| && StartsWith(before[i..], open)
    ensures i + |open| <= |before|
  {
  }

  lemma OpenBlanked(before: string, between: string, i: nat, from: nat)
    requires i <= from <= |before| && between == before[..i] + Blanks(from - i) + before[from..]
    ensures |between| == |before| && between[from..] == before[from..]
  {
  }

  /** The second of the two loops goes on where the first ended. */
  lemma BlanksJoin(before: string, between: string, after: string, i: nat, from: nat, end: nat)
    requires i <= from <= end <= |before|
    requires between == before[..i] + Blanks(from - i) + before[from..]
    requires after == between[..from] + Blanks(end - from) + between[end..]
    ensures after == before[..i] + Blanks(end - i) + before[end..]
  {
    assert between[..from] == before[..i] + Blanks(from - i);
    assert between[end..] == before[end..];
    assert Blanks(from - i) + Blanks(end - from) == Blanks(end - i);
  }

  lemma BlankedToEnd(before: string, after: string, i: nat, open: string, close: string, escaped: bool)
    requires open != [] && close != [] && i + |open| <= |before|
    requires Ordinary(before[i..], escaped) && StartsWith(before[i..], open)
    requires after == before[..i] + Blanks(|open|) + before[i + |open|..]
    requires Find(before[i + |open|..], close).None?
    ensures before[..i] + Strip(before[i..], false, escaped, open, close) == after
  {
    hide *;
    TailSlices(before, i, i + |open|, i + |open|);
    LengthOfComment(before[i..], open, close);
    TurnComment(before[i..], escaped, open, close);
    Regroup(before[..i], Blanks(|open|), before[i + |open|..]);
  }

  lemma TailSlices(before: string, i: nat, from: nat, stop: nat)
    requires i <= from <= |before| && i <= stop <= |before|
    ensures before[i..][from - i..] == before[from..] && before[i..][stop - i..] == before[stop..]
  {
  }

  lemma BlankedSlices(before: string, after: string, i: nat, stop: nat)
    requires i <= stop <= |before| && after == before[..i] + Blanks(stop - i) + before[stop..]
    ensures |after| == |before|
    ensures after[..stop] == before[..i] + Blanks(stop - i) && after[stop..] == before[stop..]
  {
  }

  lemma BlankedTo(before: string, after: string, i: nat, here: string, body: string, stop: nat, p: nat,
                  open: string, close: string, escaped: bool)
    requires open != [] && close != [] && i + |open| + p + |close| == stop <= |before|
    requires here == before[i..] && body == before[i + |open|..]
    requires Ordinary(here, escaped) && StartsWith(here, open) && Find(body, close) == Some(p)
    requires after == before[..i] + Blanks(stop - i) + before[stop..]
    ensures |after| == |before|
    ensures before[..i] + Strip(here, false, escaped, open, close) ==
            after[..stop] + Strip(after[stop..], false, false, open, close)
  {
    hide *;
    var tail := before[stop..];
    TailSlices(before, i, i + |open|, stop);
    BlankedSlices(before, after, i, stop);
    StripTo(here, body, tail, p, open, close, escaped);
    Compose(before[..i], Blanks(stop - i), Strip(tail, false, false, open, close), after[..stop],
            Strip(here, false, escaped, open, close));
  }

  lemma Compose(prefix: string, blanks: string, rest: string, front: string, whole: string)
    requires front == prefix + blanks && whole == blanks + rest
    ensures prefix + whole == front + rest
  {
    Regroup(prefix, blanks, rest);
  }

  lemma StripTo(here: string, body: string, tail: string, p: nat, open: string, close: string, escaped: bool)
    requires open != [] && close != [] && |open| + p + |close| <= |here|
    requires Ordinary(here, escaped) && StartsWith(here, open)
    requires body == here[|open|..] && Find(body, close) == Some(p) && tail == here[|open| + p + |close|..]
    ensures Strip(here, false, escaped, open, close) ==
            Blanks(|open| + p + |close|) + Strip(tail, false, false, open, close)
  {
    hide Strip, Ordinary, StartsWith, Blanks, CommentLength;
    LengthOfComment(here, open, close);
    TurnComment(here, escaped, open, close);
  }

  lemma LengthOfComment(s: string, open: string, close: string)
    requires open != [] && close != [] && |open| <= |s| && StartsWith(s, open)
    ensures var p := Find(s[|open|..], close);
            CommentLength(s, open, close) == if p.None? then None else Some(|open| + p.value + |close|)
  {
  }

  lemma Regroup(a: string, b: string, c: string)
    ensures a + (b + c) == a + b + c
  {
  }

  // One turn of the loop, branch by branch.

  lemma TurnEnd(s: string, inString: bool, escaped: bool, open: string, close: string)
    requires open != [] && close != [] && s == []
    ensures Strip(s, inString, escaped, open, close) == []
  {
  }

  lemma TurnBackslash(s: string, inString: bool, escaped: bool, open: string, close: string)
    requires open != [] && close != [] && s != []
    requires s[0] == '\\' && !escaped
    ensures Strip(s, inString, escaped, open, close) == [s[0]] + Strip(s[1..], inString, true, open, close)
  {
    hide StartsWith, CommentLength, Blanks;
  }

  lemma TurnQuote(s: string, inString: bool, escaped: bool, open: string, close: string)
    requires open != [] && close != [] && s != []
    requires s[0] == '\"' && !escaped
    ensures Strip(s, inString, escaped, open, close) == [s[0]] + Strip(s[1..], !inString, false, open, close)
  {
    hide StartsWith, CommentLength, Blanks;
  }

  /** Neither a backslash nor a quote that counts. */
  predicate Ordinary(s: string, escaped: bool) {
    s != [] && (escaped || (s[0] != '\\' && s[0] != '\"'))
  }

  lemma TurnOther(s: string, inString: bool, escaped: bool, open: string, close: string)
    requires open != [] && close != [] && Ordinary(s, escaped)
    requires inString || !StartsWith(s, open)
    ensures Strip(s, inString, escaped, open, close) == [s[0]] + Strip(s[1..], inString, false, open, close)
  {
    hide StartsWith, CommentLength, Blanks;
  }

  lemma TurnComment(s: string, escaped: bool, open: string, close: string)
    requires open != [] && close != [] && Ordinary(s, escaped) && StartsWith(s, open)
    ensures var n := CommentLength(s, open, close);
            Strip(s, false, escaped, open, close) ==
            if n.None? then Blanks(|open|) + s[|open|..]
            else Blanks(n.value) + Strip(s[n.value..], false, false, open, close)
  {
    hide CommentLength, Blanks, StartsWith;
  }

  /** The loops that overwrite a stretch with spaces. */
  method BlankOut(a: array<char>, from: nat, end: nat)
    requires from <= end <= a.Length
    modifies a
    ensures a[..] == old(a[..from]) + Blanks(end - from) + old(a[end..])
  {
    var i := from;
    while i < end
      invariant from <= i <= end
      invariant a[..from] == old(a[..from]) && a[end..] == old(a[end..])
      invariant forall j :: from <= j < i ==> a[j] == ' '
    {
      a[i] := ' ';
      i := i + 1;
    }
    assert a[..] == a[..from] + a[from..end] + a[end..];
    assert a[from..end] == Blanks(end - from);
  }

  // ----- what it may change ------------------------------------------------

  /** Where a character of the text stands, as the scanner reads it. */
  datatype Place = Literal | Comment | Elsewhere

  /** The place of character `i`, from a given state of the scanner. Behind a comment
    that is never closed, everything counts as text. */
  function PlaceOf(s: string, inString: bool, escaped: bool, open: string, close: string, i: nat): Place
    requires open != [] && close != [] && i < |s|
    decreases |s|
  {
    var backslash, quote := s[0] == '\\' && !escaped, s[0] == '\"' && !escaped;
    if !backslash && !quote && !inString && StartsWith(s, open) then
      var n := CommentLength(s, open, close);
      if i < (if n.Some? then n.value else |open|) then Comment
      else if n.Some? then PlaceOf(s[n.value..], false, false, open, close, i - n.value)
      else if Inside(s[|open|..], false, false, i - |open|) then Literal else Elsewhere
    else if i > 0 then PlaceOf(s[1..], if quote then !inString else inString, backslash, open, close, i - 1)
    else if inString then Literal else Elsewhere
  }

  /** Reading `t` from the given state, character `i` lies inside a string
    literal: only quotes and backslashes matter. */
  predicate Inside(t: string, inString: bool, escaped: bool, i: nat)
    requires i < |t|
    decreases i
  {
    if i == 0 then inString
    else if t[0] == '\\' && !escaped then Inside(t[1..], inString, true, i - 1)
    else if t[0] == '\"' && !escaped then Inside(t[1..], !inString, false, i - 1)
    else Inside(t[1..], inString, false, i - 1)
  }

  /** What the blanking does to one character, and where it stands in the result. */
  predicate Treated(s: string, r: string, inString: bool, escaped: bool, open: string, close: string, i: nat)
    requires open != [] && close != [] && i < |s| == |r|
  {
    var place := PlaceOf(s, inString, escaped, open, close, i);
    r[i] == (if place.Comment? then ' ' else s[i]) && (place.Literal? <==> Inside(r, inString, escaped, i))
  }

  /** Exactly the comments are blanked, and the literals of the result are the
    literals of the text. */
  lemma {:induction false} CommentsBlanked(s: string, inString: bool, escaped: bool, open: string, close: string, i: nat)
    requires open != [] && close != [] && i < |s|
    ensures Treated(s, Strip(s, inString, escaped, open, close), inString, escaped, open, close, i)
    decreases |s|
  {
    hide Strip, StartsWith, CommentLength, Blanks;
    var r := Strip(s, inString, escaped, open, close);
    if s[0] == '\\' && !escaped {
      TurnBackslash(s, inString, escaped, open, close);
      assert r[0] == s[0] && r[1..] == Strip(s[1..], inString, true, open, close);
      if i > 0 { CommentsBlanked(s[1..], inString, true, open, close, i - 1); }
    } else if s[0] == '\"' && !escaped {
      TurnQuote(s, inString, escaped, open, close);
      assert r[0] == s[0] && r[1..] == Strip(s[1..], !inString, false, open, close);
      if i > 0 { CommentsBlanked(s[1..], !inString, false, open, close, i - 1); }
    } else if !inString && StartsWith(s, open) {
      TurnComment(s, escaped, open, close);
      var k := CommentLength(s, open, close);
      var n := if k.Some? then k.value else |open|;
      var rest := if k.Some? then Strip(s[n..], false, false, open, close) else s[n..];
      assert r == Blanks(n) + rest;
      BlankAt(n, rest, i);
      BlanksOutside(n, rest, escaped, i);
      if k.Some? && i >= n { CommentsBlanked(s[n..], false, false, open, close, i - n); }
    } else {
      TurnOther(s, inString, escaped, open, close);
      assert r[0] == s[0] && r[1..] == Strip(s[1..], inString, false, open, close);
      if i > 0 { CommentsBlanked(s[1..], inString, false, open, close, i - 1); }
    }
  }

  lemma BlankAt(n: nat, rest: string, i: nat)
    requires i < n + |rest|
    ensures (Blanks(n) + rest)[i] == if i < n then ' ' else rest[i - n]
  {
  }

  /** Only spaces are ever written. */
  lemma OnlySpacesWritten(s: string, inString: bool, escaped: bool, open: string, close: string, i: nat)
    requires open != [] && close != [] && i < |s|
    ensures var r := Strip(s, inString, escaped, open, close); r[i] == s[i] || r[i] == ' '
  {
    hide Strip, PlaceOf, Inside;
    CommentsBlanked(s, inString, escaped, open, close, i);
  }

  /** A character inside a string literal of the text keeps its value, and stays inside
    a literal. */
  lemma LiteralsUntouched(s: string, inString: bool, escaped: bool, open: string, close: string, i: nat)
    requires open != [] && close != [] && i < |s|
    requires PlaceOf(s, inString, escaped, open, close, i).Literal?
    ensures Strip(s, inString, escaped, open, close)[i] == s[i]
    ensures Inside(Strip(s, inString, escaped, open, close), inString, escaped, i)
  {
    hide Strip, PlaceOf, Inside;
    CommentsBlanked(s, inString, escaped, open, close, i);
  }

  lemma {:induction false} BlanksOutside(n: nat, rest: string, escaped: bool, i: nat)
    requires n > 0 && i < n + |rest|
    ensures i < n ==> !Inside(Blanks(n) + rest, false, escaped, i)
    ensures i >= n ==> Inside(Blanks(n) + rest, false, escaped, i) == Inside(rest, false, false, i - n)
    decreases n
  {
    var t := Blanks(n) + rest;
    if i > 0 {
      assert t[1..] == Blanks(n - 1) + rest;
      if n > 1 {
        BlanksOutside(n - 1, rest, false, i - 1);
      } else {
        assert t[1..] == rest;
      }
    }
  }

  // ----- printed texts have no comments ------------------------------------

  /** Text without quotes, backslashes and slashes. */
  predicate Plain(p: string) {
    forall i :: 0 <= i < |p| ==> p[i] != '\"' && p[i] != '\\' && p[i] != '/'
  }

  predicate Slashed(open: string, close: string) {
    open != [] && open[0] == '/' && close != []
  }

  /** The stripper copies `p` and is then where it was. */
  ghost predicate Passes(p: string, inString: bool, open: string, close: string)
    requires Slashed(open, close)
  {
    forall t :: Strip(p + t, inString, false, open, close) == p + Strip(t, inString, false, open, close)
  }

  lemma PassConcat(p: string, q: string, inString: bool, open: string, close: string)
    requires Slashed(open, close) && Passes(p, inString, open, close) && Passes(q, inString, open, close)
    ensures Passes(p + q, inString, open, close)
  {
    hide Strip;
    forall t
      ensures Strip(p + q + t, inString, false, open, close) == p + q + Strip(t, inString, false, open, close)
    {
      Regroup(p, q, t);
      Regroup(p, q, Strip(t, inString, false, open, close));
    }
  }

  lemma PassEmpty(inString: bool, open: string, close: string)
    requires Slashed(open, close)
    ensures Passes("", inString, open, close)
  {
    hide Strip;
    forall t
      ensures Strip("" + t, inString, false, open, close) == "" + Strip(t, inString, false, open, close)
    {
      assert "" + t == t && "" + Strip(t, inString, false, open, close) == Strip(t, inString, false, open, close);
    }
  }

  lemma {:induction false} PassPlain(p: string, inString: bool, open: string, close: string)
    requires Slashed(open, close) && Plain(p)
    ensures Passes(p, inString, open, close)
  {
    hide Passes;
    if p == [] {
      PassEmpty(inString, open, close);
    } else {
      PassPlain(p[1..], inString, open, close);
      PassChar(p[0], inString, open, close);
      PassConcat([p[0]], p[1..], inString, open, close);
      assert [p[0]] + p[1..] == p;
    }
  }

  lemma PassChar(c: char, inString: bool, open: string, close: string)
    requires Slashed(open, close) && c != '\"' && c != '\\' && (c == '/' ==> inString)
    ensures Passes([c], inString, open, close)
  {
    hide Strip;
    forall t
      ensures Strip([c] + t, inString, false, open, close) == [c] + Strip(t, inString, false, open, close)
    {
      assert StartsWith([c] + t, open) ==> open[0] == ([c] + t)[..|open|][0] == c;
      TurnOther([c] + t, inString, false, open, close);
      assert ([c] + t)[1..] == t;
    }
  }

  lemma PassPair(c: char, open: string, close: string)
    requires Slashed(open, close)
    ensures Passes(['\\', c], true, open, close)
  {
    hide Strip;
    forall t
      ensures Strip(['\\', c] + t, true, false, open, close) == ['\\', c] + Strip(t, true, false, open, close)
    {
      var s := ['\\', c] + t;
      TurnBackslash(s, true, false, open, close);
      assert s[1..] == [c] + t;
      TurnOther([c] + t, true, true, open, close);
      assert ([c] + t)[1..] == t;
      Regroup(['\\'], [c], Strip(t, true, false, open, close));
      assert ['\\'] + [c] == ['\\', c];
    }
  }

  lemma {:induction false} PassInside(p: string, open: string, close: string)
    requires Slashed(open, close) && JsonText.Harmless(p)
    ensures Passes(p, true, open, close)
  {
    hide Passes;
    if p == [] {
      PassEmpty(true, open, close);
    } else {
      PassInside(p[1..], open, close);
      PassChar(p[0], true, open, close);
      PassConcat([p[0]], p[1..], true, open, close);
      assert [p[0]] + p[1..] == p;
    }
  }

  lemma {:induction false} PassEscaped(s: string, slashes: bool, open: string, close: string)
    requires Slashed(open, close)
    ensures Passes(JsonText.Escape(s, slashes), true, open, close)
  {
    hide Passes, JsonText.EscapeChar;
    if s == [] {
      PassEmpty(true, open, close);
    } else {
      var e := JsonText.EscapeChar(s[0], slashes);
      JsonText.EscapeShields(s[0], slashes);
      if |e| == 1 && JsonText.Harmless(e) {
        PassInside(e, open, close);
      } else {
        PassPair(e[1], open, close);
        PassInside(e[2..], open, close);
        PassConcat(['\\', e[1]], e[2..], true, open, close);
        assert ['\\', e[1]] + e[2..] == e;
      }
      PassEscaped(s[1..], slashes, open, close);
      PassConcat(e, JsonText.Escape(s[1..], slashes), true, open, close);
    }
  }

  lemma PassQuoted(s: string, slashes: bool, open: string, close: string)
    requires Slashed(open, close)
    ensures Passes(JsonText.Quote(s, slashes), false, open, close)
  {
    hide Strip, JsonText.Escape;
    PassEscaped(s, slashes, open, close);
    var e := JsonText.Escape(s, slashes);
    forall t
      ensures Strip(JsonText.Quote(s, slashes) + t, false, false, open, close) ==
              JsonText.Quote(s, slashes) + Strip(t, false, false, open, close)
    {
      var q := "\"";
      var inner := e + (q + t);
      assert JsonText.Quote(s, slashes) + t == q + inner;
      TurnQuote(q + inner, false, false, open, close);
      assert (q + inner)[1..] == inner;
      TurnQuote(q + t, true, false, open, close);
      assert (q + t)[1..] == t;
      assert JsonText.Quote(s, slashes) + Strip(t, false, false, open, close) ==
             q + (e + (q + Strip(t, false, false, open, close)));
    }
  }

  lemma PlainPieces(st: Style, level: nat, i: nat, n: nat)
    ensures Plain(Pad(st, level)) && Plain(Break(st)) && Plain(Separator(i, n, st)) && Plain(Colon(st))
  {
    assert forall k :: 0 <= k < |Pad(st, level)| ==> IsSpace(Pad(st, level)[k]);
  }

  /** Printed texts pass through unchanged. */
  lemma {:induction false} PassPrinted(lib: Numbers, v: Json, level: nat, st: Style, open: string, close: string)
    requires Slashed(open, close) && WellFormed(lib, v)
    ensures Passes(Print(lib, v, level, st), false, open, close)
    decreases v, 1
  {
    hide Passes, PrintItems, PrintMembers, Pad, Break, JsonText.Quote;
    PlainPieces(st, level, 0, 0);
    PassPlain(Pad(st, level), false, open, close);
    PassPlain(Break(st), false, open, close);
    match v
    case Number(n) =>
      NumberPlain(lib.format(n));
      PassPlain(lib.format(n), false, open, close);
    case String(s) => PassQuoted(s, st.slashes, open, close);
    case Array(items) =>
      if items == [] {
        PassPlain("[]", false, open, close);
      } else {
        PassItems(lib, items, 0, level + 1, st, open, close);
        PassBracketed("[", Break(st), PrintItems(lib, items, 0, level + 1, st), Pad(st, level), "]", open, close);
      }
    case Object(ms) =>
      if ms == [] {
        PassPlain("{}", false, open, close);
      } else {
        PassMembers(lib, ms, 0, level + 1, st, open, close);
        PassBracketed("{", Break(st), PrintMembers(lib, ms, 0, level + 1, st), Pad(st, level), "}", open, close);
      }
    case Null => PassPlain("null", false, open, close);
    case Boolean(b) => PassPlain(if b then "true" else "false", false, open, close);
  }

  lemma NumberPlain(t: string)
    requires NumberText(t)
    ensures Plain(t)
  {
    assert forall k :: 0 <= k < |t| ==> NumberChar(t[k]);
  }

  lemma PassBracketed(a: string, b: string, body: string, pad: string, z: string, open: string, close: string)
    requires Slashed(open, close) && Plain(a) && Plain(z)
    requires Passes(b, false, open, close) && Passes(body, false, open, close) && Passes(pad, false, open, close)
    ensures Passes(a + b + body + pad + z, false, open, close)
  {
    hide Passes;
    PassPlain(a, false, open, close);
    PassPlain(z, false, open, close);
    PassConcat(a, b, false, open, close);
    PassConcat(a + b, body, false, open, close);
    PassConcat(a + b + body, pad, false, open, close);
    PassConcat(a + b + body + pad, z, false, open, close);
  }

  lemma {:induction false} PassItems(lib: Numbers, items: seq<Json>, i: nat, level: nat, st: Style, open: string, close: string)
    requires Slashed(open, close) && i <= |items|
    requires forall k :: 0 <= k < |items| ==> WellFormed(lib, items[k])
    ensures Passes(PrintItems(lib, items, i, level, st), false, open, close)
    decreases items, |items| - i
  {
    hide Passes, Print, Pad, Separator, WellFormed, Plain;
    if i == |items| {
      PassEmpty(false, open, close);
    } else {
      var a, p, e := Pad(st, level), Print(lib, items[i], level, st), Separator(i, |items|, st);
      PlainPieces(st, level, i, |items|);
      PassPlain(a, false, open, close);
      PassPlain(e, false, open, close);
      PassPrinted(lib, items[i], level, st, open, close);
      PassItems(lib, items, i + 1, level, st, open, close);
      PassConcat(a, p, false, open, close);
      PassConcat(a + p, e, false, open, close);
      PassConcat(a + p + e, PrintItems(lib, items, i + 1, level, st), false, open, close);
    }
  }

  lemma {:induction false} PassMembers(lib: Numbers, ms: seq<Member>, i: nat, level: nat, st: Style, open: string, close: string)
    requires Slashed(open, close) && i <= |ms|
    requires forall k :: 0 <= k < |ms| ==> WellFormed(lib, ms[k].value)
    ensures Passes(PrintMembers(lib, ms, i, level, st), false, open, close)
    decreases ms, |ms| - i
  {
    hide Passes, Print, Pad, Separator, Colon, JsonText.Quote, WellFormed, Plain;
    if i == |ms| {
      PassEmpty(false, open, close);
    } else {
      var k := IndexOf(ms, ms[i].name);
      var a, q, c := Pad(st, level), JsonText.Quote(ms[i].name, st.slashes), Colon(st);
      var p, e := Print(lib, ms[k].value, level, st), Separator(i, |ms|, st);
      PlainPieces(st, level, i, |ms|);
      PassPlain(a, false, open, close);
      PassPlain(c, false, open, close);
      PassPlain(e, false, open, close);
      PassQuoted(ms[i].name, st.slashes, open, close);
      PassPrinted(lib, ms[k].value, level, st, open, close);
      PassMembers(lib, ms, i + 1, level, st, open, close);
      PassConcat(a, q, false, open, close);
      PassConcat(a + q, c, false, open, close);
      PassConcat(a + q + c, p, false, open, close);
      PassConcat(a + q + c + p, e, false, open, close);
      PassConcat(a + q + c + p + e, PrintMembers(lib, ms, i + 1, level, st), false, open, close);
    }
  }

  /** `remove_comments` is the identity on every text the serializer produces. */
  lemma PrintedHasNoComments(lib: Numbers, v: Json, st: Style, open: string, close: string)
    requires Slashed(open, close) && WellFormed(lib, v)
    ensures Strip(Print(lib, v, 0, st), false, false, open, close) == Print(lib, v, 0, st)
  {
    hide Print;
    var p := Print(lib, v, 0, st);
    PassPrinted(lib, v, 0, st, open, close);
    assert p + [] == p;
    assert Strip(p + [], false, false, open, close) == p + Strip([], false, false, open, close);
  }

  // ----- the comment-aware parse -------------------------------------------

  /** `json_parse_string_with_comments`; unlike `json_parse_string` it does not
    skip a byte order mark. */
  function ParseWithComments(lib: Numbers, s: string): Parsed<Json> {
    ParseValue(lib, Strip(Strip(s, false, false, "/*", "*/"), false, false, "//", "\n"), 0)
  }

  /** It undoes both printers too. */
  lemma ParseWithCommentsInverts(lib: Numbers, v: Json, st: Style)
    requires WellFormed(lib, v) && FitsNesting(v, 0)
    ensures ParseWithComments(lib, Print(lib, v, 0, st)) == Ok(v, "")
  {
    hide Print, ParseValue;
    var p := Print(lib, v, 0, st);
    PrintedHasNoComments(lib, v, st, "/*", "*/");
    PrintedHasNoComments(lib, v, st, "//", "\n");
    JsonRoundTrip.ParsePrint(lib, v, 0, st, 0, "");
    assert p + "" == p;
  }

  // ----- a comment in front ---------------------------------------------------

  /** The token does not occur at any of the first `k` places. */
  predicate NotBefore(s: string, token: string, k: nat)
    requires k <= |s|
  {
    forall i :: 0 <= i < k ==> !StartsWith(s[i..], token)
  }

  lemma FindAt(s: string, token: string, k: nat)
    requires k <= |s| && StartsWith(s[k..], token) && NotBefore(s, token, k)
    ensures Find(s, token) == Some(k)
  {
    FindFirst(s, token, k);
    var j := Find(s, token).value;
    assert s[j..][..|token|] == s[j..j + |token|];
  }

  lemma FirstEnd(c: string, close: string, t: string)
    requires close != [] && NotBefore(c + close, close, |c|)
    ensures Find(c + close + t, close) == Some(|c|)
  {
    var body := c + close + t;
    assert body[|c|..] == close + t && body[|c|..][..|close|] == close;
    forall i | 0 <= i < |c|
      ensures !StartsWith(body[i..], close)
    {
      assert body[i..][..|close|] == (c + close)[i..][..|close|];
    }
    FindAt(body, close, |c|);
  }

  /** A comment with that inside stands in front of `t`. */
  predicate Commented(s: string, open: string, c: string, close: string, t: string) {
    s == open + (c + close + t)
  }

  lemma CommentRest(s: string, open: string, c: string, close: string, t: string)
    requires Slashed(open, close) && Commented(s, open, c, close, t)
    ensures var n := |open| + |c| + |close|;
            n <= |s| && Ordinary(s, false) && s[n..] == t
  {
    assert s[0] == open[0] && s == open + c + close + t && |open + c + close| == |open| + |c| + |close|;
  }

  lemma CommentEnd(s: string, open: string, c: string, close: string, t: string)
    requires Slashed(open, close) && NotBefore(c + close, close, |c|) && Commented(s, open, c, close, t)
    ensures StartsWith(s, open) && CommentLength(s, open, close) == Some(|open| + |c| + |close|)
  {
    hide Find, NotBefore;
    FirstEnd(c, close, t);
    assert s[..|open|] == open && s[|open|..] == c + close + t;
  }

  lemma StripFront(s: string, n: nat, open: string, close: string)
    requires Slashed(open, close) && Ordinary(s, false) && StartsWith(s, open) && CommentLength(s, open, close) == Some(n)
    ensures n <= |s| && Strip(s, false, false, open, close) == Blanks(n) + Strip(s[n..], false, false, open, close)
  {
    hide Strip, StartsWith, Blanks;
    TurnComment(s, false, open, close);
  }

  /** A comment goes up to the first end token behind its start. */
  lemma CommentStripped(s: string, open: string, c: string, close: string, t: string)
    requires Slashed(open, close) && NotBefore(c + close, close, |c|) && Commented(s, open, c, close, t)
    ensures Strip(s, false, false, open, close) == Blanks(|open| + |c| + |close|) + Strip(t, false, false, open, close)
  {
    hide *;
    CommentRest(s, open, c, close, t);
    CommentEnd(s, open, c, close, t);
    StripFront(s, |open| + |c| + |close|, open, close);
  }

  lemma BlanksPass(n: nat, t: string, open: string, close: string)
    requires Slashed(open, close)
    ensures Strip(Blanks(n) + t, false, false, open, close) == Blanks(n) + Strip(t, false, false, open, close)
  {
    hide Strip;
    PassPlain(Blanks(n), false, open, close);
  }

  lemma BlanksSkipped(lib: Numbers, n: nat, t: string)
    ensures ParseValue(lib, Blanks(n) + t, 0) == ParseValue(lib, t, 0)
  {
    hide ParseValue;
    SkipSpacePrefix(Blanks(n), t);
    JsonAcceptance.ParseValueSkips(lib, Blanks(n) + t, t, 0);
  }

  /** A block comment in front of any text changes nothing. */
  lemma BlockCommentSkipped(lib: Numbers, c: string, t: string)
    requires NotBefore(c + "*/", "*/", |c|)
    ensures ParseWithComments(lib, "/*" + (c + "*/" + t)) == ParseWithComments(lib, t)
  {
    hide Strip, ParseValue, Blanks, Lawful, NotBefore;
    CommentStripped("/*" + (c + "*/" + t), "/*", c, "*/", t);
    var n := 2 + |c| + 2;
    BlanksPass(n, Strip(t, false, false, "/*", "*/"), "//", "\n");
    BlanksSkipped(lib, n, Strip(Strip(t, false, false, "/*", "*/"), false, false, "//", "\n"));
  }

  /** Nor does a line comment, if the first pass finds nothing to do in it. */
  lemma LineCommentSkipped(lib: Numbers, c: string, t: string)
    requires Plain(c) && NEWLINE !in c && Peek(c) != '*'
    ensures ParseWithComments(lib, "//" + (c + "\n" + t)) == ParseWithComments(lib, t)
  {
    hide Strip, ParseValue, Blanks, Lawful, NotBefore;
    var u := Strip(t, false, false, "/*", "*/");
    SlashesPass(c, t);
    NoNewline(c);
    CommentStripped("//" + (c + "\n" + u), "//", c, "\n", u);
    BlanksSkipped(lib, 2 + |c| + 1, Strip(u, false, false, "//", "\n"));
  }

  lemma NoNewline(c: string)
    requires NEWLINE !in c
    ensures NotBefore(c + "\n", "\n", |c|)
  {
    forall i | 0 <= i < |c|
      ensures !StartsWith((c + "\n")[i..], "\n")
    {
      assert (c + "\n")[i..][..1][0] == c[i];
    }
  }

  lemma SlashesPass(c: string, t: string)
    requires Plain(c) && Peek(c) != '*'
    ensures Strip("//" + (c + "\n" + t), false, false, "/*", "*/") == "//" + (c + "\n" + Strip(t, false, false, "/*", "*/"))
  {
    var rest := c + "\n" + t;
    var s := "//" + rest;
    assert s[1..] == "/" + rest && ("/" + rest)[1..] == rest;
    assert s[..2][1] == '/' && ("/" + rest)[..2][1] == rest[0];
    assert !StartsWith(s, "/*") && !StartsWith("/" + rest, "/*");
    PassPlain(c + "\n", false, "/*", "*/");
    assert Strip((c + "\n") + t, false, false, "/*", "*/") == (c + "\n") + Strip(t, false, false, "/*", "*/");
  }

  lemma {:induction false} InsideKept(s: string, open: string, close: string)
    requires open != [] && close != [] && forall i :: 0 <= i < |s| ==> s[i] != '\"' && s[i] != '\\'
    ensures Strip(s, true, false, open, close) == s
  {
    if s != [] {
      InsideKept(s[1..], open, close);
    }
  }

  const QUOTED := "//\"\n/**/null"

  /** A quote in a line comment counts as the start of a string for the first pass, which
    then leaves the next block comment in place. */
  lemma QuoteInLineComment(lib: Numbers)
    ensures ParseWithComments(lib, QUOTED).Fail? && ParseWithComments(lib, "/**/null") == Ok(Null, "")
  {
    hide Strip, Find, Lawful, NotBefore;
    NullText(lib);
    FirstPassFooled();
    QuoteEnd();
    CommentStripped(QUOTED, "//", "\"", "\n", "/**/null");
    assert "/**/null"[..2][1] == '*';
    TurnOther("/**/null", false, false, "//", "\n");
    BlanksSkipped(lib, 4, Strip("/**/null", false, false, "//", "\n"));
  }

  lemma QuoteEnd()
    ensures NotBefore("\"" + "\n", "\n", 1)
  {
    assert ("\"" + "\n")[0..][..1][0] == '\"';
  }

  lemma FirstPassFooled()
    ensures Strip(QUOTED, false, false, "/*", "*/") == QUOTED
  {
    hide Strip;
    var a, b, c := QUOTED, QUOTED[1..], QUOTED[2..];
    assert a[..2][1] == '/' && b[..2][1] == '\"';
    TurnOther(a, false, false, "/*", "*/");
    TurnOther(b, false, false, "/*", "*/");
    TurnQuote(c, false, false, "/*", "*/");
    InsideKept(c[1..], "/*", "*/");
  }

  lemma NullText(lib: Numbers)
    ensures ParseWithComments(lib, "/**/null") == Ok(Null, "")
  {
    hide ParseWithComments, Lawful;
    assert NotBefore("" + "*/", "*/", 0);
    BlockCommentSkipped(lib, "", "null");
    assert "/*" + ("" + "*/" + "null") == "/**/null";
    ParseWithCommentsInverts(lib, Null, Style(false, false));
  }
}
