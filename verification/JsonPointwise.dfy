/** Comparison and validation, place by place: what holds of every path into the trees. */
module JsonPointwise {
  import opened Wrappers
  import opened JsonValue
  import opened JsonEquality

  datatype Step = Key(name: string) | Index(i: nat)

  /** The value at the end of a path, if the path leads anywhere. */
  function At(v: Json, path: seq<Step>): Option<Json>
    decreases |path|
  {
    if path == [] then Some(v)
    else
      match Child(v, path[0])
      case None => None
      case Some(c) => At(c, path[1..])
  }

  function Child(v: Json, step: Step): Option<Json> {
    match step
    case Key(name) => if v.Object? then GetValue(v.members, name) else None
    case Index(i) => if v.Array? && i < |v.items| then Some(v.items[i]) else None
  }

  /** Two places agree: both are empty, or hold values of one kind, with the same contents
    but for their children. */
  predicate Agree(a: Option<Json>, b: Option<Json>) {
    match a
    case None => b.None?
    case Some(x) => b.Some? && Alike(x, b.value)
  }

  predicate Alike(x: Json, y: Json) {
    match x
    case Null => y.Null?
    case Boolean(p) => y.Boolean? && (p <==> y.b)
    case Number(n) => y.Number? && n - y.n < 0.000001 && y.n - n < 0.000001
    case String(s) => y.String? && |s| == |y.s| && forall k :: 0 <= k < |s| ==> s[k] == y.s[k]
    case Array(xs) => y.Array? && |xs| == |y.items|
    case Object(ms) => y.Object? && |ms| == |y.members|
  }

  lemma AtStep(v: Json, step: Step, path: seq<Step>)
    ensures At(v, [step] + path) == match Child(v, step) case None => None case Some(c) => At(c, path)
  {
    assert ([step] + path)[1..] == path;
  }

  lemma ChildUnique(v: Json, step: Step)
    requires NamesUnique(v) && Child(v, step).Some?
    ensures NamesUnique(Child(v, step).value)
  {
  }

  /** Equal values have equal children, in the same places. */
  lemma EqualChildren(a: Json, b: Json, step: Step)
    requires NamesUnique(a) && NamesUnique(b) && Equals(a, b)
    ensures Child(a, step).Some? <==> Child(b, step).Some?
    ensures Child(a, step).Some? ==> Equals(Child(a, step).value, Child(b, step).value)
  {
    hide NamesUnique;
    match step
    case Index(_) =>
    case Key(name) =>
      if a.Object? {
        EqualMembers(a, b, name);
      }
  }

  lemma EqualMembers(a: Json, b: Json, name: string)
    requires a.Object? && NamesUnique(a) && NamesUnique(b) && Equals(a, b)
    ensures b.Object?
    ensures GetValue(a.members, name).Some? <==> GetValue(b.members, name).Some?
    ensures GetValue(a.members, name).Some? ==> Equals(GetValue(a.members, name).value, GetValue(b.members, name).value)
  {
    hide Equals;
    var ms := a.members;
    var ns := MembersOf(a, b);
    var i, j := IndexOf(ms, name), IndexOf(ns, name);
    if i < |ms| {
      assert SameAt(ms, i, ns);
    } else if j < |ns| {
      assert forall k :: 0 <= k < |ms| ==> SameAt(ms, k, ns) ==> GetValue(ns, ms[k].name).Some?;
      Pigeonhole(ms, ns, j);
    }
  }

  lemma MembersOf(a: Json, b: Json) returns (ns: seq<Member>)
    requires a.Object? && Equals(a, b)
    ensures b == Object(ns) && |ns| == |a.members| && forall i :: 0 <= i < |a.members| ==> SameAt(a.members, i, ns)
  {
    ns := b.members;
  }

  lemma {:induction false} EqualsAgree(a: Json, b: Json, path: seq<Step>)
    requires NamesUnique(a) && NamesUnique(b) && Equals(a, b)
    ensures Agree(At(a, path), At(b, path))
    decreases |path|
  {
    hide NamesUnique, Child;
    if path == [] {
      EqualsAlike(a, b);
    } else {
      EqualChildren(a, b, path[0]);
      if Child(a, path[0]).Some? {
        ChildUnique(a, path[0]);
        ChildUnique(b, path[0]);
        EqualsAgree(Child(a, path[0]).value, Child(b, path[0]).value, path[1..]);
      }
    }
  }

  lemma EqualsAlike(a: Json, b: Json)
    requires Equals(a, b)
    ensures Alike(a, b)
  {
  }

  /** The trees agree at every path, known to either of them or not. */
  ghost predicate AgreeEverywhere(a: Json, b: Json) {
    forall path :: Agree(At(a, path), At(b, path))
  }

  lemma AgreeBelow(a: Json, b: Json, step: Step)
    requires AgreeEverywhere(a, b) && Child(a, step).Some?
    ensures Child(b, step).Some? && AgreeEverywhere(Child(a, step).value, Child(b, step).value)
  {
    hide Child, Alike;
    forall path
      ensures Child(b, step).Some? && Agree(At(Child(a, step).value, path), At(Child(b, step).value, path))
    {
      assert Agree(At(a, [step] + []), At(b, [step] + []));
      AtStep(a, step, []);
      AtStep(b, step, []);
      assert Agree(At(a, [step] + path), At(b, [step] + path));
      AtStep(a, step, path);
      AtStep(b, step, path);
    }
    assert Child(b, step).Some? by { assert Agree(At(Child(a, step).value, []), At(Child(b, step).value, [])); }
  }

  lemma {:induction false} AgreeEquals(a: Json, b: Json)
    requires AgreeEverywhere(a, b)
    ensures Equals(a, b)
    decreases a
  {
    hide AgreeEverywhere;
    AgreeHere(a, b);
    match a
    case String(s) => assert s == b.s;
    case Array(xs) =>
      forall i | 0 <= i < |xs|
        ensures Equals(xs[i], b.items[i])
      {
        AgreeBelow(a, b, Index(i));
        AgreeEquals(xs[i], b.items[i]);
      }
    case Object(ms) =>
      forall i | 0 <= i < |ms|
        ensures SameAt(ms, i, b.members)
      {
        var k := IndexOf(ms, ms[i].name);
        AgreeBelow(a, b, Key(ms[i].name));
        assert k < |ms|;
        AgreeEquals(ms[k].value, GetValue(b.members, ms[i].name).value);
      }
    case _ =>
  }

  lemma AgreeHere(a: Json, b: Json)
    requires AgreeEverywhere(a, b)
    ensures Alike(a, b)
  {
    assert Agree(At(a, []), At(b, []));
  }

  /** `json_value_equals` holds exactly when the two trees agree at every path. */
  lemma EqualsExactly(a: Json, b: Json)
    requires NamesUnique(a) && NamesUnique(b)
    ensures Equals(a, b) <==> AgreeEverywhere(a, b)
  {
    hide Equals, Agree, NamesUnique;
    if Equals(a, b) {
      forall path
        ensures Agree(At(a, path), At(b, path))
      {
        EqualsAgree(a, b, path);
      }
    }
    if AgreeEverywhere(a, b) {
      AgreeEquals(a, b);
    }
  }

  // ----- schemas --------------------------------------------------------------

  /** What a schema says of a path into a value: the first element of an array stands for
    all of them. */
  function Demand(schema: Json, path: seq<Step>): Option<Json>
    decreases |path|
  {
    if path == [] then Some(schema)
    else
      match Below(schema, path[0])
      case None => None
      case Some(c) => Demand(c, path[1..])
  }

  function Below(schema: Json, step: Step): Option<Json> {
    match step
    case Key(name) => if schema.Object? then GetValue(schema.members, name) else None
    case Index(_) => if schema.Array? && schema.items != [] then Some(schema.items[0]) else None
  }

  /** A null demands nothing; anything else demands its kind, and an object all its names and
    no fewer members. */
  predicate Meets(x: Json, demand: Json) {
    match demand
    case Null => true
    case Boolean(_) => x.Boolean?
    case Number(_) => x.Number?
    case String(_) => x.String?
    case Array(_) => x.Array?
    case Object(ms) =>
      x.Object? && |x.members| >= |ms| && forall i :: 0 <= i < |ms| ==> Has(x.members, ms[i].name)
  }

  predicate Has(ms: seq<Member>, name: string) {
    exists i :: 0 <= i < |ms| && ms[i].name == name
  }

  predicate MeetsAt(schema: Json, v: Json, path: seq<Step>) {
    At(v, path).Some? && Demand(schema, path).Some? ==> Meets(At(v, path).value, Demand(schema, path).value)
  }

  ghost predicate MeetsEverywhere(schema: Json, v: Json) {
    forall path :: MeetsAt(schema, v, path)
  }

  lemma DemandStep(schema: Json, step: Step, path: seq<Step>)
    ensures Demand(schema, [step] + path) == match Below(schema, step) case None => None case Some(c) => Demand(c, path)
  {
    assert ([step] + path)[1..] == path;
  }

  lemma ValidMeets(schema: Json, v: Json)
    requires Validate(schema, v)
    ensures Meets(v, schema)
  {
    if schema.Object? {
      forall i | 0 <= i < |schema.members|
        ensures Has(v.members, schema.members[i].name)
      {
        assert ValidAt(schema.members, i, v.members);
      }
    }
  }

  lemma ValidBelow(schema: Json, v: Json, step: Step)
    requires Validate(schema, v) && Below(schema, step).Some? && Child(v, step).Some?
    ensures Validate(Below(schema, step).value, Child(v, step).value)
  {
    if step.Key? {
      assert ValidAt(schema.members, IndexOf(schema.members, step.name), v.members);
    }
  }

  lemma {:induction false} ValidMeetsAt(schema: Json, v: Json, path: seq<Step>)
    requires Validate(schema, v)
    ensures MeetsAt(schema, v, path)
    decreases |path|
  {
    hide Below, Child, Meets, Validate;
    if path == [] {
      ValidMeets(schema, v);
    } else if Below(schema, path[0]).Some? && Child(v, path[0]).Some? {
      ValidBelow(schema, v, path[0]);
      ValidMeetsAt(Below(schema, path[0]).value, Child(v, path[0]).value, path[1..]);
    }
  }

  lemma MeetsBelow(schema: Json, v: Json, step: Step)
    requires MeetsEverywhere(schema, v) && Below(schema, step).Some? && Child(v, step).Some?
    ensures MeetsEverywhere(Below(schema, step).value, Child(v, step).value)
  {
    hide Below, Child, Meets;
    forall path
      ensures MeetsAt(Below(schema, step).value, Child(v, step).value, path)
    {
      assert MeetsAt(schema, v, [step] + path);
      AtStep(v, step, path);
      DemandStep(schema, step, path);
    }
  }

  lemma {:induction false} MeetsValid(schema: Json, v: Json)
    requires MeetsEverywhere(schema, v)
    ensures Validate(schema, v)
    decreases schema
  {
    hide MeetsEverywhere;
    assert Meets(v, schema) by { MeetsHere(schema, v); }
    match schema
    case Array(items) =>
      if items != [] {
        forall i | 0 <= i < |v.items|
          ensures Validate(items[0], v.items[i])
        {
          MeetsBelow(schema, v, Index(i));
          MeetsValid(items[0], v.items[i]);
        }
      }
    case Object(ms) =>
      forall i | 0 <= i < |ms|
        ensures ValidAt(ms, i, v.members)
      {
        var k := IndexOf(ms, ms[i].name);
        assert Has(v.members, ms[i].name) && k < |ms|;
        MeetsBelow(schema, v, Key(ms[i].name));
        MeetsValid(ms[k].value, GetValue(v.members, ms[i].name).value);
      }
    case _ =>
  }

  lemma MeetsHere(schema: Json, v: Json)
    requires MeetsEverywhere(schema, v)
    ensures Meets(v, schema)
  {
    assert At(v, []) == Some(v) && Demand(schema, []) == Some(schema);
    assert MeetsAt(schema, v, []);
  }

  /** `json_validate` passes a value exactly when every place in it meets what the schema
    demands there. */
  lemma ValidateExactly(schema: Json, v: Json)
    ensures Validate(schema, v) <==> MeetsEverywhere(schema, v)
  {
    hide Validate, Meets, At, Demand;
    if Validate(schema, v) {
      forall path
        ensures MeetsAt(schema, v, path)
      {
        ValidMeetsAt(schema, v, path);
      }
    }
    if MeetsEverywhere(schema, v) {
      MeetsValid(schema, v);
    }
  }
}
