/** Dotted-path access to nested objects: `json_object_dotget_value`,
  `json_object_dotset_value` and `json_object_dotremove_internal`. */
module JsonPaths {
  import opened Wrappers
  import opened CString
  import opened JsonValue
  import opened JsonObjects
  import JsonEquality

  /** `strchr(name, '.')` */
  function FindDot(name: string): (r: Option<nat>)
    ensures r.Some? ==> r.value < |name| && name[r.value] == '.' && '.' !in name[..r.value]
    ensures r.None? ==> '.' !in name
  {
    if name == [] then None
    else if name[0] == '.' then Some(0)
    else
      var r := FindDot(name[1..]);
      if r.None? then None else Some(r.value + 1)
  }

  /** The part before the first dot, and the part behind it. */
  function Head(name: string): string {
    var d := FindDot(name);
    if d.None? then name else name[..d.value]
  }

  function Rest(name: string): (r: string)
    requires FindDot(name).Some?
    ensures |r| < |name|
  {
    name[FindDot(name).value + 1..]
  }

  /** `json_object_dotget_value`; a step into anything but an object meets the
    NULL object, where every lookup fails. */
  function DotGet(ms: seq<Member>, name: string): Option<Json>
    decreases |name|
  {
    if FindDot(name).None? then GetValue(ms, name)
    else
      match GetValue(ms, Head(name))
      case Some(Object(inner)) => DotGet(inner, Rest(name))
      case _ => None
  }

  /** `json_object_dotset_value`: existing objects on the way are updated in
    place, missing ones are created. */
  function DotSet(ms: seq<Member>, name: string, v: Json, owned: bool): Outcome
    decreases |name|
  {
    if FindDot(name).None? then Set(ms, name, v, owned)
    else
      match GetValue(ms, Head(name))
      case Some(Object(inner)) =>
        var r := DotSet(inner, Rest(name), v, owned);
        Outcome(r.ok, ms[IndexOf(ms, Head(name)) := Member(Head(name), Object(r.members))])
      case Some(_) => Outcome(false, ms)
      case None =>
        var r := DotSet([], Rest(name), v, owned);
        if !r.ok then Outcome(false, ms) else Add(ms, Head(name), Object(r.members))
  }

  /** `json_object_dotremove_internal` */
  function DotRemove(ms: seq<Member>, name: string): Outcome
    decreases |name|
  {
    if FindDot(name).None? then Remove(ms, name)
    else
      match GetValue(ms, Head(name))
      case Some(Object(inner)) =>
        var r := DotRemove(inner, Rest(name));
        Outcome(r.ok, ms[IndexOf(ms, Head(name)) := Member(Head(name), Object(r.members))])
      case _ => Outcome(false, ms)
  }

  // ----- one level ---------------------------------------------------------

  /** What setting a single name does to every lookup. */
  lemma GetAfterSet(ms: seq<Member>, name: string, v: Json, n: string)
    ensures GetValue(Set(ms, name, v, false).members, n) == if n == name then Some(v) else GetValue(ms, n)
  {
    hide IndexOf;
    GetAppended(ms, Member(name, v), n);
    if IndexOf(ms, name) < |ms| {
      GetReplaced(ms, name, v, n);
    }
  }

  /** Where a path with a dot leads: the object written back under its first
    name is the result of the rest of the path. */
  lemma StepInto(ms: seq<Member>, name: string, v: Json, owned: bool)
    requires FindDot(name).Some? && DotSet(ms, name, v, owned).ok
    ensures var inner := if GetValue(ms, Head(name)).Some? then GetValue(ms, Head(name)).value else Object([]);
            && inner.Object?
            && var r := DotSet(inner.members, Rest(name), v, owned);
            && r.ok
            && forall n :: GetValue(DotSet(ms, name, v, owned).members, n) ==
                           if n == Head(name) then Some(Object(r.members)) else GetValue(ms, n)
  {
    hide IndexOf, FindDot;
    var head := Head(name);
    var inner := if GetValue(ms, head).Some? then GetValue(ms, head).value else Object([]);
    var r := DotSet(inner.members, Rest(name), v, owned);
    forall n
      ensures GetValue(DotSet(ms, name, v, owned).members, n) ==
              if n == head then Some(Object(r.members)) else GetValue(ms, n)
    {
      GetAfterSet(ms, head, Object(r.members), n);
    }
  }

  // ----- set, then get -----------------------------------------------------

  /** After a successful set, the same path reads the new value. */
  lemma {:induction false} DotSetGet(ms: seq<Member>, name: string, v: Json, owned: bool)
    requires DotSet(ms, name, v, owned).ok
    ensures DotGet(DotSet(ms, name, v, owned).members, name) == Some(v)
    decreases |name|
  {
    hide IndexOf, GetValue;
    if FindDot(name).None? {
      GetAfterSet(ms, name, v, name);
    } else {
      StepInto(ms, name, v, owned);
      var inner := if GetValue(ms, Head(name)).Some? then GetValue(ms, Head(name)).value else Object([]);
      DotSetGet(inner.members, Rest(name), v, owned);
    }
  }

  /** The names a path is made of. */
  function Segments(name: string): (s: seq<string>)
    ensures s != []
    decreases |name|
  {
    if FindDot(name).None? then [name] else [Head(name)] + Segments(Rest(name))
  }

  /** Neither path is a prefix of the other. */
  predicate Unrelated(p: string, q: string) {
    !(Segments(p) <= Segments(q)) && !(Segments(q) <= Segments(p))
  }

  lemma SegmentsPrefix(p: string, q: string)
    requires Head(p) == Head(q)
    ensures FindDot(p).None? ==> Segments(p) <= Segments(q)
    ensures FindDot(p).Some? && FindDot(q).Some? && Segments(Rest(p)) <= Segments(Rest(q)) ==> Segments(p) <= Segments(q)
  {
    hide FindDot;
    assert Segments(p)[0] == Segments(q)[0];
    if FindDot(p).Some? && FindDot(q).Some? && Segments(Rest(p)) <= Segments(Rest(q)) {
      assert Segments(q)[..|Segments(p)|] == [Head(q)] + Segments(Rest(q))[..|Segments(Rest(p))|];
    }
  }

  lemma UnrelatedRest(p: string, q: string)
    requires Unrelated(p, q) && Head(p) == Head(q)
    ensures FindDot(p).Some? && FindDot(q).Some? && Unrelated(Rest(p), Rest(q))
  {
    hide FindDot, Segments;
    SegmentsPrefix(p, q);
    SegmentsPrefix(q, p);
  }

  /** Every path that is neither a prefix nor an extension of the one set reads
    as before. */
  lemma {:induction false} DotSetElsewhere(ms: seq<Member>, name: string, v: Json, owned: bool, other: string)
    requires DotSet(ms, name, v, owned).ok && Unrelated(name, other)
    ensures DotGet(DotSet(ms, name, v, owned).members, other) == DotGet(ms, other)
    decreases |name|
  {
    hide IndexOf, GetValue, Unrelated, FindDot;
    if Head(name) == Head(other) {
      UnrelatedRest(name, other);
      StepInto(ms, name, v, owned);
      var inner := if GetValue(ms, Head(name)).Some? then GetValue(ms, Head(name)).value else Object([]);
      DotSetElsewhere(inner.members, Rest(name), v, owned, Rest(other));
      NothingInEmpty(Rest(other));
    } else if FindDot(name).None? {
      GetAfterSet(ms, name, v, Head(other));
    } else {
      StepInto(ms, name, v, owned);
    }
  }

  lemma NothingInEmpty(name: string)
    ensures DotGet([], name) == None
  {
  }

  /** Reading along `p` and then `q` is reading along `p.q`: so an extension of
    the path set reads into the new value, and a prefix of it reads an object
    that leads there. */
  lemma {:induction false} DotGetCompose(ms: seq<Member>, p: string, q: string)
    ensures DotGet(ms, p + "." + q) ==
            match DotGet(ms, p)
            case Some(Object(inner)) => DotGet(inner, q)
            case _ => None
    decreases |p|
  {
    hide GetValue, FindDot;
    JoinPaths(p, q);
    if FindDot(p).Some? {
      match GetValue(ms, Head(p))
      case Some(Object(inner)) => DotGetCompose(inner, Rest(p), q);
      case _ =>
    }
  }

  lemma JoinPaths(p: string, q: string)
    ensures var path := p + "." + q;
            && FindDot(path).Some? && Head(path) == Head(p)
            && Rest(path) == if FindDot(p).None? then q else Rest(p) + "." + q
  {
    FirstDot(p, q);
    var path := p + "." + q;
    if FindDot(p).None? {
      assert path[..|p|] == p && path[|p| + 1..] == q;
    } else {
      var d := FindDot(p).value;
      assert path[..d] == p[..d] && path[d + 1..] == p[d + 1..] + "." + q;
    }
  }

  lemma {:induction false} FirstDot(p: string, q: string)
    ensures FindDot(p + "." + q) == if FindDot(p).None? then Some(|p|) else FindDot(p)
  {
    if p != [] && p[0] != '.' {
      assert (p + "." + q)[1..] == p[1..] + "." + q;
      FirstDot(p[1..], q);
    }
  }

  // ----- success and failure -----------------------------------------------

  /** A failed call leaves the object tree as it was. */
  lemma {:induction false} DotSetFailure(ms: seq<Member>, name: string, v: Json, owned: bool)
    requires !DotSet(ms, name, v, owned).ok
    ensures DotSet(ms, name, v, owned).members == ms
    decreases |name|
  {
    hide FindDot;
    if FindDot(name).Some? {
      match GetValue(ms, Head(name))
      case Some(Object(inner)) => DotSetFailure(inner, Rest(name), v, owned);
      case _ =>
    }
  }

  /** Something that is not an object stands on the way. */
  predicate Blocked(ms: seq<Member>, name: string)
    decreases |name|
  {
    && FindDot(name).Some?
    && match GetValue(ms, Head(name))
       case Some(Object(inner)) => Blocked(inner, Rest(name))
       case Some(_) => true
       case None => false
  }

  /** The prefix of the path before the dot at `i` reads a value that is not an
    object. */
  predicate Obstacle(ms: seq<Member>, name: string, i: nat)
    requires i <= |name|
  {
    var r := DotGet(ms, name[..i]);
    i < |name| && name[i] == '.' && r.Some? && !r.value.Object?
  }

  /** The path is blocked exactly when there is such a prefix. */
  lemma {:induction false} BlockedMeaning(ms: seq<Member>, name: string)
    ensures Blocked(ms, name) <==> exists i :: 0 <= i <= |name| && Obstacle(ms, name, i)
    decreases |name|
  {
    hide GetValue, FindDot, DotGet;
    if FindDot(name).None? {
      assert forall i :: 0 <= i < |name| ==> name[i] != '.';
    } else {
      var d, rest := FindDot(name).value, Rest(name);
      SplitAtDot(name);
      FirstObstacle(ms, name);
      forall i | d < i <= |name|
        ensures Obstacle(ms, name, i) <==>
                match GetValue(ms, Head(name))
                case Some(Object(inner)) => Obstacle(inner, rest, i - d - 1)
                case _ => false
      {
        LaterObstacle(ms, name, i);
      }
      match GetValue(ms, Head(name))
      case Some(Object(inner)) =>
        BlockedMeaning(inner, rest);
        if Blocked(inner, rest) {
          var i :| 0 <= i <= |rest| && Obstacle(inner, rest, i);
          assert Obstacle(ms, name, d + 1 + i);
        }
      case Some(_) => assert Obstacle(ms, name, d);
      case None =>
    }
  }

  lemma FirstObstacle(ms: seq<Member>, name: string)
    requires FindDot(name).Some?
    ensures Obstacle(ms, name, FindDot(name).value) <==>
            GetValue(ms, Head(name)).Some? && !GetValue(ms, Head(name)).value.Object?
  {
    NoDots(Head(name));
  }

  lemma LaterObstacle(ms: seq<Member>, name: string, i: nat)
    requires FindDot(name).Some? && FindDot(name).value < i <= |name|
    ensures Obstacle(ms, name, i) <==>
            match GetValue(ms, Head(name))
            case Some(Object(inner)) => Obstacle(inner, Rest(name), i - FindDot(name).value - 1)
            case _ => false
  {
    hide GetValue, FindDot;
    var d, rest := FindDot(name).value, Rest(name);
    NoDots(Head(name));
    assert name[..i] == Head(name) + "." + rest[..i - d - 1];
    DotGetCompose(ms, Head(name), rest[..i - d - 1]);
    assert i < |name| ==> name[i] == rest[i - d - 1];
  }

  lemma SplitAtDot(name: string)
    requires FindDot(name).Some?
    ensures var d := FindDot(name).value; name[d] == '.' && forall i :: 0 <= i < d ==> name[i] != '.'
  {
    var d := FindDot(name).value;
    assert forall i :: 0 <= i < d ==> name[i] == name[..d][i];
  }

  lemma {:induction false} NoDots(p: string)
    requires '.' !in p
    ensures FindDot(p).None?
  {
  }

  /** The call succeeds exactly when the value is free to be attached and no
    prefix of the path is taken by a value that is not an object. */
  lemma {:induction false} DotSetSucceeds(ms: seq<Member>, name: string, v: Json, owned: bool)
    ensures DotSet(ms, name, v, owned).ok <==> !owned && !Blocked(ms, name)
    decreases |name|
  {
    hide FindDot;
    if FindDot(name).Some? {
      match GetValue(ms, Head(name))
      case Some(Object(inner)) => DotSetSucceeds(inner, Rest(name), v, owned);
      case Some(_) =>
      case None =>
        DotSetSucceeds([], Rest(name), v, owned);
        assert !Blocked([], Rest(name));
    }
  }

  // ----- the tree stays well formed, and removal undoes --------------------

  /** Object keys stay unique throughout the tree. */
  lemma {:induction false} DotSetKeepsUnique(ms: seq<Member>, name: string, v: Json, owned: bool)
    requires JsonEquality.NamesUnique(Object(ms)) && JsonEquality.NamesUnique(v)
    ensures JsonEquality.NamesUnique(Object(DotSet(ms, name, v, owned).members))
    decreases |name|
  {
    hide FindDot, IndexOf;
    if FindDot(name).None? {
      SetKeepsUnique(ms, name, v);
    } else {
      var inner := if GetValue(ms, Head(name)).Some? then GetValue(ms, Head(name)).value else Object([]);
      if inner.Object? {
        DotSetKeepsUnique(inner.members, Rest(name), v, owned);
        SetKeepsUnique(ms, Head(name), Object(DotSet(inner.members, Rest(name), v, owned).members));
      }
    }
  }

  lemma SetKeepsUnique(ms: seq<Member>, name: string, v: Json)
    requires JsonEquality.NamesUnique(Object(ms)) && JsonEquality.NamesUnique(v)
    ensures JsonEquality.NamesUnique(Object(Set(ms, name, v, false).members))
  {
    ApplyRefines(ms, SetOp(name, v, false));
    var ns := Set(ms, name, v, false).members;
    forall i | 0 <= i < |ns|
      ensures JsonEquality.NamesUnique(ns[i].value)
    {
    }
  }

  /** The object that is to hold the last name of the path exists. */
  predicate ParentExists(ms: seq<Member>, name: string)
    decreases |name|
  {
    FindDot(name).None? ||
    match GetValue(ms, Head(name))
    case Some(Object(inner)) => ParentExists(inner, Rest(name))
    case _ => false
  }

  /** Removing a path that was absent and has just been set succeeds, and the path is
    absent again. The tree is the old one exactly when no object had to be created on
    the way: those stay, empty. */
  lemma {:induction false} DotRemoveUndoes(ms: seq<Member>, name: string, v: Json)
    requires JsonEquality.NamesUnique(Object(ms))
    requires !Blocked(ms, name) && DotGet(ms, name) == None
    ensures var r := DotRemove(DotSet(ms, name, v, false).members, name);
            && r.ok && DotGet(r.members, name) == None
            && (r.members == ms <==> ParentExists(ms, name))
    decreases |name|
  {
    hide FindDot, IndexOf, DotSet, DotRemove, GetValue;
    if FindDot(name).None? {
      UndoneHere(ms, name, v);
    } else {
      var head, rest := Head(name), Rest(name);
      var inner := if GetValue(ms, head).Some? then GetValue(ms, head).value.members else [];
      DotSetSucceeds(inner, rest, v, false);
      if GetValue(ms, head).None? {
        NothingInEmpty(rest);
        NothingBlocked(rest);
      } else {
        UniqueInside(ms, head);
      }
      DotRemoveUndoes(inner, rest, v);
      UndoneInside(ms, name, v, inner);
    }
  }

  lemma UniqueInside(ms: seq<Member>, name: string)
    requires JsonEquality.NamesUnique(Object(ms)) && GetValue(ms, name).Some?
    ensures JsonEquality.NamesUnique(GetValue(ms, name).value)
  {
  }

  lemma NothingBlocked(name: string)
    ensures !Blocked([], name)
  {
  }

  lemma UndoneHere(ms: seq<Member>, name: string, v: Json)
    requires FindDot(name).None? && GetValue(ms, name).None?
    ensures DotRemove(DotSet(ms, name, v, false).members, name) == Outcome(true, ms)
  {
    hide FindDot, IndexOf;
    RemoveAppended(ms, name, v);
  }

  /** What setting and removing a longer path does outside the inner object. */
  lemma UndoneInside(ms: seq<Member>, name: string, v: Json, inner: seq<Member>)
    requires FindDot(name).Some? && DotSet(inner, Rest(name), v, false).ok
    requires GetValue(ms, Head(name)) == Some(Object(inner)) || (GetValue(ms, Head(name)) == None && inner == [])
    ensures var filled := DotSet(inner, Rest(name), v, false).members;
            var undone, r := DotRemove(filled, Rest(name)), DotRemove(DotSet(ms, name, v, false).members, name);
            && r.ok == undone.ok
            && DotGet(r.members, name) == DotGet(undone.members, Rest(name))
            && (r.members == ms <==> GetValue(ms, Head(name)).Some? && undone.members == inner)
  {
    hide FindDot, IndexOf;
    var head, rest := Head(name), Rest(name);
    var filled := Object(DotSet(inner, rest, v, false).members);
    var ns := DotSet(ms, name, v, false).members;
    if GetValue(ms, head).Some? {
      var k := IndexOf(ms, head);
      GetReplaced(ms, head, filled, head);
      SamePosition(ms, ms[k := Member(head, filled)], head);
    } else {
      GetAppended(ms, Member(head, filled), head);
    }
    assert GetValue(ns, head) == Some(filled);
    GetReplaced(ns, head, Object(DotRemove(filled.members, rest).members), head);
  }

  lemma RemoveAppended(ms: seq<Member>, name: string, v: Json)
    requires GetValue(ms, name).None?
    ensures Set(ms, name, v, false).members == ms + [Member(name, v)]
    ensures Remove(ms + [Member(name, v)], name) == Outcome(true, ms)
  {
    var ns := ms + [Member(name, v)];
    assert ns[|ms|].name == name;
    var i := IndexOf(ns, name);
    assert forall j :: 0 <= j < |ms| ==> ns[j] == ms[j];
    assert ns[|ms| := ns[|ms|]][..|ms|] == ms;
  }

  // ----- removal in general -----------------------------------------------------

  lemma {:induction false} RemovedLookup(ms: seq<Member>, name: string, n: string)
    requires UniqueNames(ms)
    ensures GetValue(Remove(ms, name).members, n) == if n == name then None else GetValue(ms, n)
  {
    hide GetValue;
    RemoveRefines(ms, name);
    MapLookup(ms, n);
    MapLookup(Remove(ms, name).members, n);
  }

  lemma MapLookup(ms: seq<Member>, n: string)
    ensures GetValue(ms, n) == if n in AsMap(ms) then Some(AsMap(ms)[n]) else None
  {
  }

  /** What a removal along a longer path does to every lookup in the outer object. */
  lemma RemoveInto(ms: seq<Member>, name: string, inner: seq<Member>, n: string)
    requires FindDot(name).Some? && GetValue(ms, Head(name)) == Some(Object(inner))
    ensures GetValue(DotRemove(ms, name).members, n) ==
            if n == Head(name) then Some(Object(DotRemove(inner, Rest(name)).members)) else GetValue(ms, n)
  {
    hide IndexOf, FindDot;
    GetReplaced(ms, Head(name), Object(DotRemove(inner, Rest(name)).members), n);
  }

  /** Removal succeeds exactly when the path leads somewhere. Then the path is absent, and
    every unrelated one reads as before; otherwise nothing changes. */
  lemma {:induction false} DotRemoveExactly(ms: seq<Member>, name: string, other: string)
    requires JsonEquality.NamesUnique(Object(ms))
    ensures var r := DotRemove(ms, name);
            && (r.ok <==> DotGet(ms, name).Some?)
            && (r.ok ==> DotGet(r.members, name) == None)
            && (!r.ok ==> r.members == ms)
            && (Unrelated(name, other) ==> DotGet(r.members, other) == DotGet(ms, other))
    decreases |name|
  {
    hide IndexOf, GetValue, Unrelated, FindDot, Remove, JsonEquality.NamesUnique;
    if FindDot(name).None? {
      RemoveOne(ms, name);
      RemovedLookup(ms, name, name);
      RemovedLookup(ms, name, Head(other));
      if Unrelated(name, other) && Head(name) == Head(other) {
        UnrelatedRest(name, other);
      }
    } else {
      match GetValue(ms, Head(name))
      case Some(Object(inner)) =>
        UniqueInside(ms, Head(name));
        RemoveInto(ms, name, inner, Head(name));
        RemoveInto(ms, name, inner, Head(other));
        if Unrelated(name, other) && Head(name) == Head(other) {
          UnrelatedRest(name, other);
          DotRemoveExactly(inner, Rest(name), Rest(other));
        } else {
          DotRemoveExactly(inner, Rest(name), Rest(name));
        }
        SameBack(ms, Head(name), inner);
      case _ =>
    }
  }

  lemma RemoveOne(ms: seq<Member>, name: string)
    requires JsonEquality.NamesUnique(Object(ms))
    ensures UniqueNames(ms) && (Remove(ms, name).ok <==> GetValue(ms, name).Some?)
    ensures !Remove(ms, name).ok ==> Remove(ms, name).members == ms
  {
  }

  lemma SameBack(ms: seq<Member>, name: string, inner: seq<Member>)
    requires GetValue(ms, name) == Some(Object(inner))
    ensures IndexOf(ms, name) < |ms| && ms[IndexOf(ms, name) := Member(name, Object(inner))] == ms
  {
  }
}
