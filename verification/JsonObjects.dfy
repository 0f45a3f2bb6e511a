/** The object store of parson: parallel name and value arrays that grow by
  doubling and fill a removed slot with the last member.  It refines a finite
  map from names to values. */
module JsonObjects {
  import opened Wrappers
  import opened CString
  import opened JsonValue

  /** `STARTING_CAPACITY` */
  const STARTING_CAPACITY := 16

  // ----- the operations on member lists ------------------------------------

  /** Whether the call succeeded, and the members after it. */
  datatype Outcome = Outcome(ok: bool, members: seq<Member>)

  /** `json_object_addn` */
  function Add(ms: seq<Member>, name: string, v: Json): Outcome {
    if GetValue(ms, name).Some? then Outcome(false, ms) else Outcome(true, ms + [Member(name, v)])
  }

  /** `json_object_set_value`; `owned` says that the value has a parent. */
  function Set(ms: seq<Member>, name: string, v: Json, owned: bool): Outcome {
    if owned then Outcome(false, ms)
    else
      var i := IndexOf(ms, name);
      if i < |ms| then Outcome(true, ms[i := Member(name, v)]) else Add(ms, name, v)
  }

  /** `json_object_remove_internal` */
  function Remove(ms: seq<Member>, name: string): Outcome {
    var i := IndexOf(ms, name);
    if i == |ms| then Outcome(false, ms)
    else Outcome(true, ms[i := ms[|ms| - 1]][..|ms| - 1])
  }

  lemma RemoveAt(ms: seq<Member>, name: string)
    ensures var i := IndexOf(ms, name);
            Remove(ms, name) ==
            if i == |ms| then Outcome(false, ms) else Outcome(true, ms[i := ms[|ms| - 1]][..|ms| - 1])
  {
  }

  /** Where the members stand afterwards: a new name behind all others, a known one in its
    place; and the place of a removed one is taken by the last. */
  lemma PlacesExactly(ms: seq<Member>, name: string, v: Json, k: nat)
    requires k < |ms|
    ensures var i, added, set', removed := IndexOf(ms, name), Add(ms, name, v), Set(ms, name, v, false), Remove(ms, name);
            && (i == |ms| ==> added.ok && set'.ok && added.members == set'.members == ms + [Member(name, v)])
            && (i < |ms| ==> !added.ok && set'.ok && |set'.members| == |ms|)
            && (i < |ms| ==> set'.members[k] == if k == i then Member(name, v) else ms[k])
            && (i < |ms| ==> removed.ok && |removed.members| == |ms| - 1)
            && (i < |ms| && k < |ms| - 1 ==> removed.members[k] == ms[if k == i then |ms| - 1 else k])
            && (i == |ms| ==> removed == Outcome(false, ms))
  {
  }

  // ----- the map -----------------------------------------------------------

  function Zip(names: seq<string>, values: seq<Json>): (ms: seq<Member>)
    requires |names| == |values|
    ensures |ms| == |names|
    ensures forall i :: 0 <= i < |ms| ==> ms[i] == Member(names[i], values[i])
  {
    seq(|names|, i requires 0 <= i < |names| => Member(names[i], values[i]))
  }

  lemma ZipSwap(names: seq<string>, values: seq<Json>, i: nat)
    requires |names| == |values| && i < |names|
    ensures var last, ms := |names| - 1, Zip(names, values);
            Zip(names[i := names[last]][..last], values[i := values[last]][..last]) == ms[i := ms[last]][..last]
  {
  }

  ghost function AsMap(ms: seq<Member>): (m: map<string, Json>)
    ensures forall name :: name in m <==> GetValue(ms, name).Some?
    ensures forall name :: name in m ==> GetValue(ms, name) == Some(m[name])
  {
    map i | 0 <= i < |ms| :: ms[i].name := GetValue(ms, ms[i].name).value
  }

  datatype Op =
    | AddOp(name: string, value: Json)
    | SetOp(name: string, value: Json, owned: bool)
    | RemoveOp(name: string)
    | ClearOp

  function Apply(ms: seq<Member>, op: Op): Outcome {
    match op
    case AddOp(name, v) => Add(ms, name, v)
    case SetOp(name, v, owned) => Set(ms, name, v, owned)
    case RemoveOp(name) => Remove(ms, name)
    case ClearOp => Outcome(true, [])
  }

  /** The same operation on the map. */
  function ApplyMap(m: map<string, Json>, op: Op): (bool, map<string, Json>) {
    match op
    case AddOp(name, v) => if name in m then (false, m) else (true, m[name := v])
    case SetOp(name, v, owned) => if owned then (false, m) else (true, m[name := v])
    case RemoveOp(name) => if name in m then (true, m - {name}) else (false, m)
    case ClearOp => (true, map[])
  }

  /** One operation keeps names unique and acts on the map of the members. */
  lemma ApplyRefines(ms: seq<Member>, op: Op)
    requires UniqueNames(ms)
    ensures UniqueNames(Apply(ms, op).members)
    ensures (Apply(ms, op).ok, AsMap(Apply(ms, op).members)) == ApplyMap(AsMap(ms), op)
  {
    hide AsMap;
    match op
    case AddOp(name, v) =>
      if GetValue(ms, name).None? {
        AddRefines(ms, name, v);
      }
    case SetOp(name, v, owned) =>
      if IndexOf(ms, name) < |ms| {
        SetRefines(ms, name, v);
      } else {
        AddRefines(ms, name, v);
      }
    case RemoveOp(name) => RemoveRefines(ms, name);
    case ClearOp =>
  }

  /** A list that looks up like the map has that map. */
  lemma SameLookups(ns: seq<Member>, m: map<string, Json>)
    requires forall n :: GetValue(ns, n) == if n in m then Some(m[n]) else None
    ensures AsMap(ns) == m
  {
    hide AsMap, GetValue;
    var a := AsMap(ns);
    forall n
      ensures n in a <==> n in m
      ensures n in a && n in m ==> a[n] == m[n]
    {
      assert GetValue(ns, n) == if n in m then Some(m[n]) else None;
    }
  }

  lemma {:induction false} GetAppended(ms: seq<Member>, m: Member, n: string)
    ensures GetValue(ms + [m], n) ==
            if GetValue(ms, n).Some? then GetValue(ms, n) else if n == m.name then Some(m.value) else None
  {
    var ns := ms + [m];
    var i, k := IndexOf(ns, n), IndexOf(ms, n);
    if k < |ms| {
      assert ns[k] == ms[k];
      assert i <= k;
      assert ms[i].name == n;
    } else {
      assert forall j :: 0 <= j < |ms| ==> ns[j].name == ms[j].name;
      assert n == m.name ==> ns[|ms|].name == n;
    }
  }

  lemma AddRefines(ms: seq<Member>, name: string, v: Json)
    requires UniqueNames(ms) && GetValue(ms, name).None?
    ensures UniqueNames(ms + [Member(name, v)])
    ensures AsMap(ms + [Member(name, v)]) == AsMap(ms)[name := v]
  {
    hide AsMap;
    var ns, m := ms + [Member(name, v)], AsMap(ms)[name := v];
    forall n
      ensures GetValue(ns, n) == if n in m then Some(m[n]) else None
    {
      hide GetValue;
      GetAppended(ms, Member(name, v), n);
    }
    SameLookups(ns, m);
  }

  /** Looking up depends on the names only through the position. */
  lemma SamePosition(ms: seq<Member>, ns: seq<Member>, n: string)
    requires |ms| == |ns| && forall i :: 0 <= i < |ms| ==> ms[i].name == ns[i].name
    ensures IndexOf(ms, n) == IndexOf(ns, n)
  {
    var i, k := IndexOf(ms, n), IndexOf(ns, n);
    assert i < |ms| ==> ns[i].name == n;
    assert k < |ms| ==> ms[k].name == n;
  }

  lemma GetReplaced(ms: seq<Member>, name: string, v: Json, n: string)
    requires GetValue(ms, name).Some?
    ensures var k := IndexOf(ms, name);
            && k < |ms|
            && GetValue(ms[k := Member(name, v)], n) == if n == name then Some(v) else GetValue(ms, n)
  {
    var k := IndexOf(ms, name);
    SamePosition(ms, ms[k := Member(name, v)], n);
    SamePosition(ms, ms[k := Member(name, v)], name);
  }

  lemma SetRefines(ms: seq<Member>, name: string, v: Json)
    requires UniqueNames(ms) && IndexOf(ms, name) < |ms|
    ensures var ns := ms[IndexOf(ms, name) := Member(name, v)]; UniqueNames(ns) && AsMap(ns) == AsMap(ms)[name := v]
  {
    hide AsMap;
    var ns, m := ms[IndexOf(ms, name) := Member(name, v)], AsMap(ms)[name := v];
    forall n
      ensures GetValue(ns, n) == if n in m then Some(m[n]) else None
    {
      GetReplaced(ms, name, v, n);
    }
    SameLookups(ns, m);
  }

  /** With unique names, what is in the list is what is found. */
  lemma GetIsMembership(ms: seq<Member>, n: string)
    requires UniqueNames(ms)
    ensures GetValue(ms, n).Some? ==> Member(n, GetValue(ms, n).value) in ms
    ensures forall v :: Member(n, v) in ms ==> GetValue(ms, n) == Some(v)
  {
    forall v | Member(n, v) in ms
      ensures GetValue(ms, n) == Some(v)
    {
      var i :| 0 <= i < |ms| && ms[i] == Member(n, v);
      UniqueIndex(ms, i);
    }
  }

  /** Removal keeps exactly the other members, and their names distinct. */
  lemma RemoveMembership(ms: seq<Member>, name: string)
    requires UniqueNames(ms) && IndexOf(ms, name) < |ms|
    ensures var ns := Remove(ms, name).members;
            && UniqueNames(ns)
            && forall m :: m in ns <==> m in ms && m.name != name
  {
    var k, last := IndexOf(ms, name), |ms| - 1;
    var ns := Remove(ms, name).members;
    assert forall i :: 0 <= i < last ==> ns[i] == if i == k then ms[last] else ms[i];
    forall m | m in ms && m.name != name
      ensures m in ns
    {
      var i :| 0 <= i < |ms| && ms[i] == m;
      assert ns[if i == last then k else i] == m;
    }
    assert forall i :: 0 <= i < |ms| && i != k ==> ms[i].name != name;
  }

  /** Swap-with-last removal loses the named binding and no other. */
  lemma RemoveRefines(ms: seq<Member>, name: string)
    requires UniqueNames(ms)
    ensures var r := Remove(ms, name);
            && r.ok == (name in AsMap(ms))
            && UniqueNames(r.members)
            && AsMap(r.members) == AsMap(ms) - {name}
  {
    hide AsMap;
    if IndexOf(ms, name) < |ms| {
      var ns, m := Remove(ms, name).members, AsMap(ms) - {name};
      assert GetValue(ms, name).Some?;
      RemoveMembership(ms, name);
      forall n
        ensures GetValue(ns, n) == if n in m then Some(m[n]) else None
      {
        hide GetValue, Remove;
        GetIsMembership(ms, n);
        GetIsMembership(ns, n);
      }
      SameLookups(ns, m);
    } else {
      assert GetValue(ms, name).None?;
      assert AsMap(ms) - {name} == AsMap(ms);
    }
  }

  // ----- runs --------------------------------------------------------------

  function Run(ms: seq<Member>, ops: seq<Op>): (seq<bool>, seq<Member>)
    decreases |ops|
  {
    if ops == [] then ([], ms)
    else
      var first := Apply(ms, ops[0]);
      var rest := Run(first.members, ops[1..]);
      ([first.ok] + rest.0, rest.1)
  }

  function RunMap(m: map<string, Json>, ops: seq<Op>): (seq<bool>, map<string, Json>)
    decreases |ops|
  {
    if ops == [] then ([], m)
    else
      var first := ApplyMap(m, ops[0]);
      var rest := RunMap(first.1, ops[1..]);
      ([first.0] + rest.0, rest.1)
  }

  /** Under any sequence of add, set, remove and clear the members refine the
    map: every status and every later lookup agrees, and there are as many
    members as bindings. */
  lemma {:induction false} RunRefines(ms: seq<Member>, ops: seq<Op>)
    requires UniqueNames(ms)
    ensures var r := Run(ms, ops);
            && UniqueNames(r.1)
            && (r.0, AsMap(r.1)) == RunMap(AsMap(ms), ops)
            && |r.1| == |AsMap(r.1)|
    decreases |ops|
  {
    if ops == [] {
      SizeOfMap(ms);
    } else {
      ApplyRefines(ms, ops[0]);
      RunRefines(Apply(ms, ops[0]).members, ops[1..]);
    }
  }

  lemma {:induction false} SizeOfMap(ms: seq<Member>)
    requires UniqueNames(ms)
    ensures |AsMap(ms)| == |ms|
  {
    hide AsMap, IndexOf;
    if ms == [] {
      assert AsMap(ms) == map[];
    } else {
      var init, last := ms[..|ms| - 1], ms[|ms| - 1];
      SizeOfMap(init);
      assert GetValue(init, last.name).None?;
      assert ms == init + [Member(last.name, last.value)];
      AddRefines(init, last.name, last.value);
    }
  }

  /** The last element takes the place of a removed one. */
  method FillSlot<T>(a: array<T>, i: nat, last: nat)
    requires i <= last < a.Length
    modifies a
    ensures a[..last] == old(a[..last + 1])[i := old(a[last])][..last]
  {
    if i != last {
      a[i] := a[last];
    }
  }

  /** A new array of `size` that starts with the first `n` elements of the old one. */
  method CopyFirst<T(0)>(a: array<T>, n: nat, size: nat) returns (b: array<T>)
    requires n <= a.Length && n <= size
    ensures fresh(b) && b.Length == size && b[..n] == a[..n]
  {
    b := new T[size];
    forall i | 0 <= i < n {
      b[i] := a[i];
    }
  }

  // ----- the store ---------------------------------------------------------

  class ObjectStore {
    var names: array<string>
    var values: array<Json>
    var count: nat
    var capacity: nat

    ghost predicate Valid()
      reads this, names, values
    {
      && names.Length == capacity && values.Length == capacity && count <= capacity
      && UniqueNames(Members())
    }

    /** The members held, in order. */
    ghost function Members(): seq<Member>
      requires count <= names.Length && count <= values.Length
      reads this, names, values
    {
      Zip(names[..count], values[..count])
    }

    /** `json_object_init` */
    constructor ()
      ensures Valid() && Members() == [] && capacity == 0
      ensures fresh(names) && fresh(values)
    {
      names, values := new string[0], new Json[0];
      count, capacity := 0, 0;
    }

    /** `json_object_resize`; zero is refused, and callers never go below the count, which
      the C code would copy past the new arrays. */
    method Resize(newCapacity: nat) returns (ok: bool)
      requires Valid() && (newCapacity == 0 || newCapacity >= count)
      modifies this
      ensures ok <==> newCapacity != 0
      ensures ok ==> capacity == newCapacity && fresh(names) && fresh(values)
      ensures !ok ==> capacity == old(capacity) && names == old(names) && values == old(values)
      ensures Valid() && count == old(count) && Members() == old(Members())
    {
      if newCapacity == 0 {
        return false;
      }
      hide Zip, UniqueNames;
      var newNames := CopyFirst(names, count, newCapacity);
      var newValues := CopyFirst(values, count, newCapacity);
      names, values, capacity := newNames, newValues, newCapacity;
      return true;
    }

    /** The position of `name`, or `count`: the search loop of several calls. */
    method Find(name: string) returns (i: nat)
      requires Valid()
      ensures i == IndexOf(Members(), name)
    {
      ghost var ms := Members();
      i := 0;
      while i < count
        invariant 0 <= i <= count
        invariant IndexOf(ms, name) == i + IndexOf(ms[i..], name)
      {
        assert ms[i..][0] == Member(names[i], values[i]) && ms[i..][1..] == ms[i + 1..];
        if names[i] == name {
          return i;
        }
        i := i + 1;
      }
    }

    /** `json_object_getn_value` */
    method Get(name: string) returns (r: Option<Json>)
      requires Valid()
      ensures r == GetValue(Members(), name)
    {
      var i := Find(name);
      if i < count {
        return Some(values[i]);
      }
      return None;
    }

    /** `json_object_addn` */
    method AddMember(name: string, v: Json) returns (ok: bool)
      requires Valid()
      modifies this, names, values
      ensures Valid()
      ensures Outcome(ok, Members()) == Add(old(Members()), name, v)
      ensures names == old(names) || fresh(names)
      ensures values == old(values) || fresh(values)
      ensures capacity == if ok && old(count) >= old(capacity) then
                            (if 2 * old(capacity) > STARTING_CAPACITY then 2 * old(capacity) else STARTING_CAPACITY)
                          else old(capacity)
    {
      hide AsMap, IndexOf, Zip, UniqueNames;
      ghost var ms := Members();
      var present := Get(name);
      if present.Some? {
        return false;
      }
      AddRefines(ms, name, v);
      MakeRoom();
      Append(name, v);
      return true;
    }

    /** Room for one more: twice the capacity, but no less than the starting one. */
    method MakeRoom()
      requires Valid()
      modifies this
      ensures Valid() && count < capacity && count == old(count) && Members() == old(Members())
      ensures names == old(names) || fresh(names)
      ensures values == old(values) || fresh(values)
      ensures capacity == if count >= old(capacity) then
                            (if 2 * old(capacity) > STARTING_CAPACITY then 2 * old(capacity) else STARTING_CAPACITY)
                          else old(capacity)
    {
      hide Zip, UniqueNames;
      if count >= capacity {
        var ok := Resize(if 2 * capacity > STARTING_CAPACITY then 2 * capacity else STARTING_CAPACITY);
      }
    }

    /** The new pair behind the others. */
    method Append(name: string, v: Json)
      requires Valid() && count < capacity && UniqueNames(Members() + [Member(name, v)])
      modifies this`count, names, values
      ensures Valid() && Members() == old(Members()) + [Member(name, v)]
    {
      hide UniqueNames;
      ghost var ms := Members();
      names[count], values[count] := name, v;
      count := count + 1;
      assert Members() == ms + [Member(name, v)];
    }

    /** `json_object_set_value` */
    method SetMember(name: string, v: Json, owned: bool) returns (ok: bool)
      requires Valid()
      modifies this, names, values
      ensures Valid()
      ensures Outcome(ok, Members()) == Set(old(Members()), name, v, owned)
      ensures names == old(names) || fresh(names)
      ensures values == old(values) || fresh(values)
    {
      if owned {
        return false;
      }
      ghost var ms := Members();
      var i := Find(name);
      if i < count {
        values[i] := v;
        SetRefines(ms, name, v);
        assert Members() == ms[i := Member(name, v)];
        return true;
      }
      ok := AddMember(name, v);
    }

    /** `json_object_remove_internal` */
    method RemoveMember(name: string) returns (ok: bool)
      requires Valid()
      modifies this, names, values
      ensures Valid()
      ensures Outcome(ok, Members()) == Remove(old(Members()), name)
      ensures capacity == old(capacity)
      ensures names == old(names) && values == old(values)
    {
      hide AsMap, IndexOf, Zip, Remove, UniqueNames;
      ghost var ms := Members();
      var i := Find(name);
      RemoveRefines(ms, name);
      RemoveAt(ms, name);
      if i == count {
        return false;
      }
      FillGap(i);
      return true;
    }

    /** The last pair takes the place of the one at `i`. */
    method FillGap(i: nat)
      requires Valid() && i < count
      requires var ms := Members(); UniqueNames(ms[i := ms[|ms| - 1]][..|ms| - 1])
      modifies this`count, names, values
      ensures Valid()
      ensures var ms := old(Members()); Members() == ms[i := ms[|ms| - 1]][..|ms| - 1]
    {
      hide Zip, UniqueNames;
      ghost var last, ns, vs := count - 1, names[..count], values[..count];
      ZipSwap(ns, vs, i);
      FillSlot(names, i, count - 1);
      FillSlot(values, i, count - 1);
      count := count - 1;
      assert names[..count] == ns[i := ns[last]][..last] && values[..count] == vs[i := vs[last]][..last];
    }

    /** `json_object_clear` */
    method Clear()
      requires Valid()
      modifies this`count
      ensures Valid() && Members() == [] && capacity == old(capacity)
    {
      count := 0;
    }
  }
}
