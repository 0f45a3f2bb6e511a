/** What the operations of list.c do to the sequence of payloads and the
  embedded cursor, and what holds over whole runs of them. */
module ListModel {
  import opened Wrappers

  /** The payloads in order, and the position the next iteration step returns;
    None when the iteration is over. */
  datatype State<T> = State(items: seq<T>, cursor: Option<nat>) {
    predicate Valid() {
      cursor.Some? ==> cursor.value < |items|
    }
  }

  predicate IsPosition(i: nat, n: nat) {
    i < n
  }

  function At(i: nat, n: nat): Option<nat> {
    if IsPosition(i, n) then Some(i) else None
  }

  /** `list_add` */
  function Add<T>(s: State<T>, x: T): State<T> {
    if s.items == [] then State([x], Some(0)) else State(s.items + [x], s.cursor)
  }

  function IndexOf<T(==)>(items: seq<T>, x: T): (i: nat)
    ensures i <= |items|
    ensures i < |items| ==> items[i] == x
    ensures forall k :: 0 <= k < i ==> items[k] != x
  {
    if items == [] || items[0] == x then 0 else 1 + IndexOf(items[1..], x)
  }

  /** `list_delete`: the first element holding `x` goes; a cursor on it moves to
    its successor. */
  function Delete<T(==)>(s: State<T>, x: T): (bool, State<T>) {
    var k := IndexOf(s.items, x);
    if k == |s.items| then (false, s)
    else (true, State(s.items[..k] + s.items[k + 1..], CursorAfter(s.cursor, k, |s.items|)))
  }

  /** The cursor after the deletion of element `k` of `n`. */
  function CursorAfter(cursor: Option<nat>, k: nat, n: nat): Option<nat>
    requires k < n
  {
    match cursor
    case None => None
    case Some(c) => if c < k then Some(c) else if c > k then Some(c - 1) else At(k, n - 1)
  }

  /** `list_get_next` */
  function GetNext<T>(s: State<T>): (Option<T>, State<T>)
    requires s.Valid()
  {
    match s.cursor
    case None => (None, s)
    case Some(c) => (Some(s.items[c]), s.(cursor := At(c + 1, |s.items|)))
  }

  /** `list_reset` */
  function Reset<T>(s: State<T>): State<T> {
    s.(cursor := At(0, |s.items|))
  }

  /** `list_add_list`, and `list_dup` into an empty list */
  function AddAll<T>(s: State<T>, xs: seq<T>): State<T>
    decreases |xs|
  {
    if xs == [] then s else AddAll(Add(s, xs[0]), xs[1..])
  }

  lemma {:induction false} AddAllAppends<T>(s: State<T>, xs: seq<T>)
    ensures AddAll(s, xs) == State(s.items + xs, if s.items == [] && xs != [] then Some(0) else s.cursor)
    decreases |xs|
  {
    if xs == [] {
      assert s.items + xs == s.items;
    } else {
      AddAllAppends(Add(s, xs[0]), xs[1..]);
      assert s.items + xs == s.items + [xs[0]] + xs[1..];
    }
  }

  // ----- runs of an iteration ----------------------------------------------

  // Elements are named by the moment of their insertion, so that the list is in
  // insertion order when it is increasing.

  datatype Op = AddOp | DeleteOp(x: int) | NextOp

  /** The values an iteration returned, the elements that were added after it was
    over, the final list and the next name. */
  datatype Trace = Trace(returned: seq<int>, late: set<int>, last: State<int>, clock: int)

  function Run(s: State<int>, clock: int, ops: seq<Op>): Trace
    requires s.Valid()
    decreases |ops|
  {
    if ops == [] then Trace([], {}, s, clock)
    else
      match ops[0]
      case AddOp =>
        var t := Run(Add(s, clock), clock + 1, ops[1..]);
        if s.cursor.None? && s.items != [] then t.(late := t.late + {clock}) else t
      case DeleteOp(x) => Run(Delete(s, x).1, clock, ops[1..])
      case NextOp =>
        var (r, s') := GetNext(s);
        var t := Run(s', clock, ops[1..]);
        if r.Some? then t.(returned := [r.value] + t.returned) else t
  }

  /** What the iteration has yet to return. */
  function Pending<T>(s: State<T>): seq<T>
    requires s.Valid()
  {
    if s.cursor.None? then [] else s.items[s.cursor.value..]
  }

  /** What it has passed. */
  function Passed<T>(s: State<T>): seq<T>
    requires s.Valid()
  {
    if s.cursor.None? then s.items else s.items[..s.cursor.value]
  }

  predicate Increasing(xs: seq<int>) {
    forall i, j :: 0 <= i < j < |xs| ==> xs[i] < xs[j]
  }

  predicate Below(xs: seq<int>, clock: int) {
    forall i :: 0 <= i < |xs| ==> xs[i] < clock
  }

  predicate Inserted(s: State<int>, clock: int) {
    s.Valid() && Increasing(s.items) && Below(s.items, clock)
  }

  /** Every element the run returns was pending or is new. */
  predicate FromPending(xs: seq<int>, s: State<int>, clock: int)
    requires s.Valid()
  {
    forall x :: x in xs ==> x in Pending(s) || x >= clock
  }

  predicate Within(xs: seq<int>, ys: seq<int>) {
    forall x :: x in xs ==> x in ys
  }

  /** An element that is in the list at the end has been returned, is still
    pending, or was in `passed` or added when the iteration was over. */
  predicate Accounted(t: Trace, passed: seq<int>)
    requires t.last.Valid()
  {
    forall x :: x in t.last.items ==> x in t.returned || x in Pending(t.last) || x in t.late || x in passed
  }

  /** Whatever adds and deletes are interleaved with the iteration, deletes of
    the element under the cursor included: the values it returns and the ones it
    still holds are in insertion order, each at most once; and an element that is
    in the list at the end has been returned, is still pending, or was passed or
    added when the iteration was over. */
  lemma {:induction false} IterationInOrder(s: State<int>, clock: int, ops: seq<Op>)
    requires Inserted(s, clock)
    ensures var t := Run(s, clock, ops);
            && Inserted(t.last, t.clock)
            && Increasing(t.returned + Pending(t.last))
            && FromPending(t.returned + Pending(t.last), s, clock)
            && Accounted(t, Passed(s))
    decreases |ops|
  {
    if ops == [] {
      assert [] + Pending(s) == Pending(s);
    } else {
      match ops[0]
      case AddOp =>
        hide Increasing, Below;
        StepAdd(s, clock);
        IterationInOrder(Add(s, clock), clock + 1, ops[1..]);
      case DeleteOp(x) =>
        hide Delete, Increasing, Below, Within, Pending, Passed, FromPending, Accounted;
        var d := Delete(s, x).1;
        StepDelete(s, clock, x);
        IterationInOrder(d, clock, ops[1..]);
        var t := Run(d, clock, ops[1..]);
        AccountedMonotone(t, Passed(d), Passed(s));
        FromMonotone(t.returned + Pending(t.last), s, d, clock);
      case NextOp =>
        IterationAfterNext(s, clock, ops);
    }
  }

  lemma StepAdd(s: State<int>, clock: int)
    requires Inserted(s, clock)
    ensures var a := Add(s, clock);
            && Inserted(a, clock + 1)
            && (forall x :: x in Pending(a) ==> x in Pending(s) || x == clock)
            && (forall x :: x in Passed(a) ==> x in Passed(s) || (x == clock && s.cursor.None? && s.items != []))
  {
  }

  lemma StepDelete(s: State<int>, clock: int, x: int)
    requires Inserted(s, clock)
    ensures var d := Delete(s, x).1;
            && Inserted(d, clock)
            && Within(Pending(d), Pending(s)) && Within(Passed(d), Passed(s))
  {
    hide Delete, IndexOf, Increasing, Below, Within, Pending, Passed;
    var k := IndexOf(s.items, x);
    WithinSelf(s);
    DeleteAbsent(s, x);
    if k < |s.items| {
      DeleteSplits(s, x);
      Spans(s);
      CutInserted(s.items, k, clock);
      match s.cursor
      case None => CutHead(s.items, k, |s.items|);
      case Some(c) =>
        CutTail(s.items, c, k);
        CutHead(s.items, k, c);
    }
  }

  lemma DeleteAbsent(s: State<int>, x: int)
    ensures IndexOf(s.items, x) == |s.items| ==> Delete(s, x) == (false, s)
  {
  }

  lemma Spans(s: State<int>)
    requires s.Valid()
    ensures s.cursor.None? ==> Pending(s) == [] && Passed(s) == s.items
    ensures s.cursor.Some? ==> Pending(s) == s.items[s.cursor.value..] && Passed(s) == s.items[..s.cursor.value]
  {
  }

  lemma WithinSelf(s: State<int>)
    requires s.Valid()
    ensures Within([], Pending(s)) && Within(Pending(s), Pending(s)) && Within(Passed(s), Passed(s))
  {
  }

  lemma CutInserted(xs: seq<int>, k: nat, clock: int)
    requires k < |xs| && Increasing(xs) && Below(xs, clock)
    ensures Increasing(xs[..k] + xs[k + 1..]) && Below(xs[..k] + xs[k + 1..], clock)
  {
    var ys := xs[..k] + xs[k + 1..];
    assert forall i :: 0 <= i < |ys| ==> ys[i] == if i < k then xs[i] else xs[i + 1];
  }

  lemma CutTail(xs: seq<int>, c: nat, k: nat)
    requires k < |xs| && c < |xs|
    ensures Within(xs[c..], xs[c..]) && Within(xs[..c], xs[..c])
    ensures c < k ==> Within(xs[c..k] + xs[k + 1..], xs[c..])
    ensures c == k ==> Within(xs[k + 1..], xs[c..])
  {
    if c < k {
      assert xs[c..] == xs[c..k] + [xs[k]] + xs[k + 1..];
    } else if c == k {
      assert xs[c..] == [xs[k]] + xs[k + 1..];
    }
  }

  lemma CutHead(xs: seq<int>, k: nat, c: nat)
    requires k < |xs| && c <= |xs|
    ensures k < c ==> Within(xs[..k] + xs[k + 1..c], xs[..c])
    ensures k < c == |xs| ==> Within(xs[..k] + xs[k + 1..], xs)
  {
    if k < c {
      assert xs[..c] == xs[..k] + [xs[k]] + xs[k + 1..c];
    }
    if k < c == |xs| {
      assert xs == xs[..k] + [xs[k]] + xs[k + 1..];
    }
  }

  /** Where the cursor stands after a deletion: what is pending and what is
    passed lose the deleted element and nothing else. */
  lemma DeleteSplits(s: State<int>, x: int)
    requires s.Valid() && IndexOf(s.items, x) < |s.items|
    ensures var d, k := Delete(s, x).1, IndexOf(s.items, x);
            && d.Valid() && d.items == s.items[..k] + s.items[k + 1..]
            && match s.cursor
               case None => Passed(d) == s.items[..k] + s.items[k + 1..] && Pending(d) == []
               case Some(c) =>
                 && Pending(d) == (if c < k then s.items[c..k] + s.items[k + 1..] else if c == k then s.items[k + 1..] else s.items[c..])
                 && Passed(d) == (if c > k then s.items[..k] + s.items[k + 1..c] else s.items[..c])
  {
    hide IndexOf;
    var k := IndexOf(s.items, x);
    if s.cursor.Some? {
      var c := s.cursor.value;
      if c < k {
        CutLater(s.items, c, k);
      } else if c > k {
        CutEarlier(s.items, c, k);
      } else {
        CutHere(s.items, k);
      }
    }
  }

  lemma CutLater<T>(xs: seq<T>, c: nat, k: nat)
    requires c < k < |xs|
    ensures (xs[..k] + xs[k + 1..])[c..] == xs[c..k] + xs[k + 1..]
    ensures (xs[..k] + xs[k + 1..])[..c] == xs[..c]
  {
  }

  lemma CutEarlier<T>(xs: seq<T>, c: nat, k: nat)
    requires k < c < |xs|
    ensures (xs[..k] + xs[k + 1..])[c - 1..] == xs[c..]
    ensures (xs[..k] + xs[k + 1..])[..c - 1] == xs[..k] + xs[k + 1..c]
  {
  }

  lemma CutHere<T>(xs: seq<T>, k: nat)
    requires k < |xs|
    ensures (xs[..k] + xs[k + 1..])[k..] == xs[k + 1..]
    ensures (xs[..k] + xs[k + 1..])[..k] == xs[..k]
    ensures k + 1 == |xs| ==> xs[..k] + xs[k + 1..] == xs[..k] && xs[k + 1..] == []
  {
  }

  lemma IterationAfterNext(s: State<int>, clock: int, ops: seq<Op>)
    requires Inserted(s, clock) && ops != [] && ops[0] == NextOp
    ensures var t := Run(s, clock, ops);
            && Inserted(t.last, t.clock)
            && Increasing(t.returned + Pending(t.last))
            && FromPending(t.returned + Pending(t.last), s, clock)
            && Accounted(t, Passed(s))
    decreases |ops|, 0
  {
    hide Run, Increasing, Below, Pending, Passed, FromPending, GetNext, Accounted;
    RunNext(s, clock, ops);
    var (r, s') := GetNext(s);
    var u := Run(s', clock, ops[1..]);
    NextSplits(s);
    IterationInOrder(s', clock, ops[1..]);
    if r.Some? {
      var tail := u.returned + Pending(u.last);
      AccountedNext(u, r.value, Passed(s));
      assert [r.value] + u.returned + Pending(u.last) == [r.value] + tail;
      NextBelow(s, clock, tail);
      ConsIncreasing(r.value, tail);
    }
  }

  lemma RunNext(s: State<int>, clock: int, ops: seq<Op>)
    requires s.Valid() && ops != [] && ops[0] == NextOp
    ensures var (r, s') := GetNext(s);
            && s'.Valid()
            && var u := Run(s', clock, ops[1..]);
            Run(s, clock, ops) == if r.Some? then u.(returned := [r.value] + u.returned) else u
  {
  }

  lemma AccountedNext(u: Trace, x: int, passed: seq<int>)
    requires u.last.Valid() && Accounted(u, passed + [x])
    ensures Accounted(u.(returned := [x] + u.returned), passed)
  {
  }

  lemma AccountedMonotone(u: Trace, passed: seq<int>, more: seq<int>)
    requires u.last.Valid() && Accounted(u, passed) && Within(passed, more)
    ensures Accounted(u, more)
  {
  }

  lemma FromMonotone(xs: seq<int>, s: State<int>, d: State<int>, clock: int)
    requires s.Valid() && d.Valid() && Within(Pending(d), Pending(s)) && FromPending(xs, d, clock)
    ensures FromPending(xs, s, clock)
  {
  }

  lemma NextSplits(s: State<int>)
    requires s.Valid()
    ensures var (r, s') := GetNext(s);
            && s'.Valid() && s'.items == s.items && (r.None? <==> s.cursor.None?)
            && if r.None? then s' == s
               else Pending(s) == [r.value] + Pending(s') && Passed(s') == Passed(s) + [r.value]
  {
  }

  lemma NextBelow(s: State<int>, clock: int, tail: seq<int>)
    requires Inserted(s, clock) && s.cursor.Some?
    requires FromPending(tail, GetNext(s).1, clock)
    ensures forall x :: x in tail ==> GetNext(s).0.value < x
    ensures FromPending([GetNext(s).0.value] + tail, s, clock)
  {
    NextSplits(s);
    var (r, s') := GetNext(s);
    forall x | x in tail
      ensures r.value < x
    {
      if x in Pending(s') {
        var i :| 0 <= i < |Pending(s')| && Pending(s')[i] == x;
        assert s.items[s.cursor.value + 1 + i] == x;
      }
    }
  }

  lemma ConsIncreasing(x: int, xs: seq<int>)
    requires Increasing(xs) && forall y :: y in xs ==> x < y
    ensures Increasing([x] + xs)
  {
    forall i, j | 0 <= i < j < |[x] + xs|
      ensures ([x] + xs)[i] < ([x] + xs)[j]
    {
      assert xs[j - 1] in xs;
    }
  }

  /** After a reset, an iteration that has run to its end has returned, once and
    in insertion order, every element that is still there, except those added
    after the end was reached. */
  lemma IterationComplete(s: State<int>, clock: int, ops: seq<Op>)
    requires Inserted(s, clock)
    requires Run(Reset(s), clock, ops).last.cursor.None?
    ensures var t := Run(Reset(s), clock, ops);
            && Increasing(t.returned)
            && forall x :: x in t.last.items && x !in t.late ==> x in t.returned
  {
    IterationInOrder(Reset(s), clock, ops);
    var t := Run(Reset(s), clock, ops);
    assert t.returned + [] == t.returned;
  }

  // ----- order -------------------------------------------------------------

  /** `compare` answers `comp` exactly for the pairs of a strict order. */
  ghost predicate StrictOrder<T(!new)>(compare: (T, T) -> int, comp: int) {
    && (forall x :: compare(x, x) != comp)
    && (forall x, y, z :: compare(x, y) == comp && compare(y, z) == comp ==> compare(x, z) == comp)
  }

  /** No later element belongs before an earlier one. */
  ghost predicate Ordered<T>(items: seq<T>, compare: (T, T) -> int, comp: int) {
    forall i, j :: 0 <= i < j < |items| ==> compare(items[i], items[j]) != comp
  }

  /** `_compare`: `strcmp`, reduced to its sign. */
  function CompareStrings(a: string, b: string): (r: int)
    ensures r == -1 || r == 0 || r == 1
  {
    if a == [] && b == [] then 0
    else if a == [] then -1
    else if b == [] then 1
    else if a[0] < b[0] then -1
    else if a[0] > b[0] then 1
    else CompareStrings(a[1..], b[1..])
  }

  /** The default comparison is a strict order in both directions. */
  lemma CompareStringsStrict()
    ensures StrictOrder(CompareStrings, 1) && StrictOrder(CompareStrings, -1)
  {
    forall x
      ensures CompareStrings(x, x) == 0
    {
      CompareSelf(x);
    }
    forall x, y, z | CompareStrings(x, y) == CompareStrings(y, z) != 0
      ensures CompareStrings(x, z) == CompareStrings(x, y)
    {
      CompareTransitive(x, y, z);
    }
  }

  lemma {:induction false} CompareSelf(x: string)
    ensures CompareStrings(x, x) == 0
  {
    if x != [] {
      CompareSelf(x[1..]);
    }
  }

  lemma {:induction false} CompareTransitive(x: string, y: string, z: string)
    requires CompareStrings(x, y) == CompareStrings(y, z) != 0
    ensures CompareStrings(x, z) == CompareStrings(x, y)
  {
    if x != [] && y != [] && z != [] {
      if x[0] == y[0] == z[0] {
        CompareTransitive(x[1..], y[1..], z[1..]);
      }
    }
  }

  /** The first string ends first, or has the smaller character where they first differ. */
  ghost predicate Precedes(a: string, b: string) {
    exists k :: 0 <= k <= |a| && k <= |b| && PrecedesAt(a, b, k)
  }

  predicate PrecedesAt(a: string, b: string, k: nat)
    requires k <= |a| && k <= |b|
  {
    a[..k] == b[..k] && k < |b| && (k == |a| || a[k] < b[k])
  }

  lemma {:induction false} CompareStringsExactly(a: string, b: string)
    ensures CompareStrings(a, b) == -1 <==> Precedes(a, b)
    ensures CompareStrings(a, b) == 1 <==> Precedes(b, a)
    ensures CompareStrings(a, b) == 0 <==> a == b
  {
    if a != [] && b != [] && a[0] == b[0] {
      CompareStringsExactly(a[1..], b[1..]);
      PrecedesBehind(a, b);
      PrecedesBehind(b, a);
      assert a == [a[0]] + a[1..] && b == [b[0]] + b[1..];
    } else {
      forall k | 0 < k <= |a| && k <= |b|
        ensures a[..k] != b[..k]
      {
        assert a[..k][0] == a[0] && b[..k][0] == b[0];
      }
      assert a[..0] == b[..0];
      if CompareStrings(a, b) == -1 {
        assert PrecedesAt(a, b, 0);
      } else if CompareStrings(a, b) == 1 {
        assert PrecedesAt(b, a, 0);
      }
    }
  }

  lemma PrecedesBehind(a: string, b: string)
    requires a != [] && b != [] && a[0] == b[0]
    ensures Precedes(a, b) <==> Precedes(a[1..], b[1..])
  {
    if Precedes(a, b) {
      var k :| 0 <= k <= |a| && k <= |b| && PrecedesAt(a, b, k);
      assert k > 0;
      PrecedesShift(a, b, k - 1);
    }
    if Precedes(a[1..], b[1..]) {
      var k :| 0 <= k <= |a[1..]| && k <= |b[1..]| && PrecedesAt(a[1..], b[1..], k);
      PrecedesShift(a, b, k);
    }
  }

  lemma PrecedesShift(a: string, b: string, k: nat)
    requires a != [] && b != [] && a[0] == b[0] && k < |a| && k < |b|
    ensures PrecedesAt(a, b, k + 1) <==> PrecedesAt(a[1..], b[1..], k)
  {
    assert a[..k + 1] == [a[0]] + a[1..][..k] && b[..k + 1] == [b[0]] + b[1..][..k];
    assert a[1..][..k] == a[..k + 1][1..] && b[1..][..k] == b[..k + 1][1..];
  }
}
