/** Structural comparison, deep copy and schema validation of parson trees. */
module JsonEquality {
  import opened Wrappers
  import opened CString
  import opened JsonValue

  /** `fabs(x - y) < 0.000001` */
  predicate Near(x: real, y: real) {
    -0.000001 < x - y < 0.000001
  }

  /** `json_value_equals`; only the keys of the first object are looked up. */
  predicate Equals(a: Json, b: Json)
    decreases a
  {
    match a
    case Null => b.Null?
    case Boolean(x) => b.Boolean? && x == b.b
    case Number(x) => b.Number? && Near(x, b.n)
    case String(x) => b.String? && x == b.s
    case Array(xs) =>
      b.Array? && |xs| == |b.items| && forall i :: 0 <= i < |xs| ==> Equals(xs[i], b.items[i])
    case Object(ms) =>
      b.Object? && |ms| == |b.members| && forall i :: 0 <= i < |ms| ==> SameAt(ms, i, b.members)
  }

  /** The comparison made for the name of member `i`. */
  predicate SameAt(ms: seq<Member>, i: nat, ns: seq<Member>)
    requires i < |ms|
    decreases ms, 0
  {
    var k, other := IndexOf(ms, ms[i].name), GetValue(ns, ms[i].name);
    assert k <= i;
    other.Some? && Equals(ms[k].value, other.value)
  }

  /** Names are unique in every object of the tree. */
  ghost predicate NamesUnique(v: Json) {
    match v
    case Array(items) => forall i :: 0 <= i < |items| ==> NamesUnique(items[i])
    case Object(ms) => UniqueNames(ms) && forall i :: 0 <= i < |ms| ==> NamesUnique(ms[i].value)
    case _ => true
  }

  /** `json_validate` */
  predicate Validate(schema: Json, v: Json)
    decreases schema
  {
    match schema
    case Null => true
    case Boolean(_) => v.Boolean?
    case Number(_) => v.Number?
    case String(_) => v.String?
    case Array(items) =>
      && v.Array?
      && (items == [] || forall i :: 0 <= i < |v.items| ==> Validate(items[0], v.items[i]))
    case Object(ms) =>
      && v.Object?
      && (ms == [] || (|v.members| >= |ms| && forall i :: 0 <= i < |ms| ==> ValidAt(ms, i, v.members)))
  }

  /** The check made for the key of schema member `i`. */
  predicate ValidAt(ms: seq<Member>, i: nat, ns: seq<Member>)
    requires i < |ms|
    decreases ms, 0
  {
    var k, v := IndexOf(ms, ms[i].name), GetValue(ns, ms[i].name);
    assert k <= i;
    v.Some? && Validate(ms[k].value, v.value)
  }

  // ----- equality ----------------------------------------------------------

  lemma {:induction false} EqualsReflexive(v: Json)
    ensures Equals(v, v)
    decreases v
  {
    match v
    case Array(items) =>
      forall i | 0 <= i < |items|
        ensures Equals(items[i], items[i])
      {
        EqualsReflexive(items[i]);
      }
    case Object(ms) =>
      forall i | 0 <= i < |ms|
        ensures SameAt(ms, i, ms)
      {
        var k := IndexOf(ms, ms[i].name);
        assert k < |ms|;
        EqualsReflexive(ms[k].value);
      }
    case _ =>
  }

  /** The names of an object. */
  ghost function Names(ms: seq<Member>): set<string> {
    set m | m in ms :: m.name
  }

  lemma {:induction false} NamesCount(ms: seq<Member>)
    requires UniqueNames(ms)
    ensures |Names(ms)| == |ms|
  {
    if ms != [] {
      var init, last := ms[..|ms| - 1], ms[|ms| - 1];
      NamesCount(init);
      assert ms == init + [last];
      assert Names(ms) == Names(init) + {last.name};
      assert last.name !in Names(init);
    }
  }

  /** Distinct names, as many on either side, and each of the first found in the
    second: then each of the second is found in the first. */
  lemma Pigeonhole(ms: seq<Member>, ns: seq<Member>, j: nat)
    requires UniqueNames(ms) && UniqueNames(ns) && |ms| == |ns| && j < |ns|
    requires forall i :: 0 <= i < |ms| ==> GetValue(ns, ms[i].name).Some?
    ensures exists i :: 0 <= i < |ms| && ms[i].name == ns[j].name
  {
    NamesCount(ms);
    NamesCount(ns);
    forall s | s in Names(ms)
      ensures s in Names(ns)
    {
      var i :| 0 <= i < |ms| && ms[i].name == s;
      assert GetValue(ns, ms[i].name).Some?;
    }
    SubsetSameSize(Names(ms), Names(ns));
    assert ns[j] in ns && ns[j].name in Names(ns);
  }

  lemma SubsetSameSize(x: set<string>, y: set<string>)
    requires x <= y && |x| == |y|
    ensures x == y
  {
    assert |y - x| == |y| - |x|;
  }

  /** Found by name, found by position. */
  lemma Looked(ms: seq<Member>, ns: seq<Member>, i: nat) returns (j: nat)
    requires UniqueNames(ms) && UniqueNames(ns) && i < |ms| && SameAt(ms, i, ns)
    ensures j < |ns| && ns[j].name == ms[i].name && Equals(ms[i].value, ns[j].value)
  {
    UniqueIndex(ms, i);
    j := IndexOf(ns, ms[i].name);
  }

  lemma Lookup(ms: seq<Member>, i: nat, ns: seq<Member>, j: nat)
    requires UniqueNames(ms) && UniqueNames(ns) && i < |ms| && j < |ns|
    requires ms[i].name == ns[j].name && Equals(ms[i].value, ns[j].value)
    ensures SameAt(ms, i, ns)
  {
    UniqueIndex(ms, i);
    UniqueIndex(ns, j);
  }

  lemma {:induction false} EqualsSymmetric(a: Json, b: Json)
    requires NamesUnique(a) && NamesUnique(b) && Equals(a, b)
    ensures Equals(b, a)
    decreases a
  {
    match a
    case Array(xs) =>
      forall i | 0 <= i < |xs|
        ensures Equals(b.items[i], xs[i])
      {
        EqualsSymmetric(xs[i], b.items[i]);
      }
    case Object(ms) => MembersSymmetric(ms, b.members);
    case _ =>
  }

  lemma {:induction false} MembersSymmetric(ms: seq<Member>, ns: seq<Member>)
    requires UniqueNames(ms) && UniqueNames(ns) && |ms| == |ns|
    requires forall i :: 0 <= i < |ms| ==> NamesUnique(ms[i].value)
    requires forall i :: 0 <= i < |ns| ==> NamesUnique(ns[i].value)
    requires forall i :: 0 <= i < |ms| ==> SameAt(ms, i, ns)
    ensures forall j :: 0 <= j < |ns| ==> SameAt(ns, j, ms)
    decreases ms, 0
  {
    hide NamesUnique, Equals, GetValue;
    forall j | 0 <= j < |ns|
      ensures SameAt(ns, j, ms)
    {
      assert forall i :: 0 <= i < |ms| ==> SameAt(ms, i, ns) ==> GetValue(ns, ms[i].name).Some?;
      Pigeonhole(ms, ns, j);
      var i :| 0 <= i < |ms| && ms[i].name == ns[j].name;
      var k := Looked(ms, ns, i);
      assert k == j;
      EqualsSymmetric(ms[i].value, ns[j].value);
      Lookup(ns, j, ms, i);
    }
  }

  /** The same tree up to the order of object members, at every level. */
  ghost predicate SameTree(a: Json, b: Json)
    decreases a
  {
    match a
    case Array(xs) => b.Array? && |xs| == |b.items| && forall i :: 0 <= i < |xs| ==> SameTree(xs[i], b.items[i])
    case Object(ms) =>
      && b.Object? && |ms| == |b.members|
      && forall i :: 0 <= i < |ms| ==> HasCounterpart(ms, i, b.members)
    case _ => a == b
  }

  /** Some member of `ns` has the name of member `i` and the same tree. */
  ghost predicate HasCounterpart(ms: seq<Member>, i: nat, ns: seq<Member>)
    requires i < |ms|
    decreases ms, 0
  {
    exists j :: 0 <= j < |ns| && ns[j].name == ms[i].name && SameTree(ms[i].value, ns[j].value)
  }

  /** Reordering the members of any object of the second tree is not noticed. */
  lemma {:induction false} EqualsIgnoresOrder(a: Json, b: Json, c: Json)
    requires NamesUnique(a) && NamesUnique(b) && NamesUnique(c)
    requires Equals(a, b) && SameTree(b, c)
    ensures Equals(a, c)
    decreases a
  {
    match a
    case Array(xs) =>
      forall i | 0 <= i < |xs|
        ensures Equals(xs[i], c.items[i])
      {
        EqualsIgnoresOrder(xs[i], b.items[i], c.items[i]);
      }
    case Object(ms) => MembersIgnoreOrder(ms, b.members, c.members);
    case _ =>
  }

  lemma {:induction false} MembersIgnoreOrder(ms: seq<Member>, ns: seq<Member>, os: seq<Member>)
    requires UniqueNames(ms) && UniqueNames(ns) && UniqueNames(os) && |ms| == |ns| == |os|
    requires forall i :: 0 <= i < |ms| ==> NamesUnique(ms[i].value)
    requires forall i :: 0 <= i < |ns| ==> NamesUnique(ns[i].value)
    requires forall i :: 0 <= i < |os| ==> NamesUnique(os[i].value)
    requires forall i :: 0 <= i < |ms| ==> SameAt(ms, i, ns)
    requires forall i :: 0 <= i < |ns| ==> HasCounterpart(ns, i, os)
    ensures forall i :: 0 <= i < |ms| ==> SameAt(ms, i, os)
    decreases ms, 0
  {
    hide NamesUnique, Equals, SameTree;
    forall i | 0 <= i < |ms|
      ensures SameAt(ms, i, os)
    {
      var j := Looked(ms, ns, i);
      assert HasCounterpart(ns, j, os);
      var k :| 0 <= k < |os| && os[k].name == ns[j].name && SameTree(ns[j].value, os[k].value);
      EqualsIgnoresOrder(ms[i].value, ns[j].value, os[k].value);
      Lookup(ms, i, os, k);
    }
  }

  /** In particular a reordered tree equals the original, and so do two trees
    whose reorderings are equal: order plays no part on either side. */
  lemma OrderBlind(a: Json, b: Json, a': Json, b': Json)
    requires NamesUnique(a) && NamesUnique(b) && NamesUnique(a') && NamesUnique(b')
    requires SameTree(a, a') && SameTree(b, b') && Equals(a, b)
    ensures Equals(a, a') && Equals(a', b')
  {
    EqualsReflexive(a);
    EqualsIgnoresOrder(a, a, a');
    EqualsSymmetric(a, b);
    EqualsIgnoresOrder(b, a, a');
    EqualsSymmetric(b, a');
    EqualsIgnoresOrder(a', b, b');
  }

  // ----- transitivity, where the tolerance allows it ------------------------

  /** All numbers of the tree come from `s`. */
  ghost predicate NumbersIn(v: Json, s: iset<real>) {
    match v
    case Number(n) => n in s
    case Array(items) => forall i :: 0 <= i < |items| ==> NumbersIn(items[i], s)
    case Object(ms) => forall i :: 0 <= i < |ms| ==> NumbersIn(ms[i].value, s)
    case _ => true
  }

  /** Among these numbers, a difference within the tolerance is no difference that adds
    up. */
  ghost predicate NearIsTransitive(s: iset<real>) {
    forall x, y, z :: x in s && y in s && z in s && Near(x, y) && Near(y, z) ==> Near(x, z)
  }

  ghost predicate EqualsIsTransitive(s: iset<real>) {
    forall a, b, c ::
      NumbersIn(a, s) && NumbersIn(b, s) && NumbersIn(c, s) && Equals(a, b) && Equals(b, c) ==> Equals(a, c)
  }

  lemma {:induction false} EqualsTransitive(a: Json, b: Json, c: Json, s: iset<real>)
    requires NearIsTransitive(s) && NumbersIn(a, s) && NumbersIn(b, s) && NumbersIn(c, s)
    requires Equals(a, b) && Equals(b, c)
    ensures Equals(a, c)
    decreases a
  {
    hide Near;
    match a
    case Array(xs) =>
      forall i | 0 <= i < |xs|
        ensures Equals(xs[i], c.items[i])
      {
        EqualsTransitive(xs[i], b.items[i], c.items[i], s);
      }
    case Object(ms) => MembersTransitive(ms, b.members, c.members, s);
    case _ =>
  }

  lemma {:induction false} MembersTransitive(ms: seq<Member>, ns: seq<Member>, os: seq<Member>, s: iset<real>)
    requires NearIsTransitive(s) && |ms| == |ns| == |os|
    requires forall i :: 0 <= i < |ms| ==> NumbersIn(ms[i].value, s) && SameAt(ms, i, ns)
    requires forall i :: 0 <= i < |ns| ==> NumbersIn(ns[i].value, s) && SameAt(ns, i, os)
    requires forall i :: 0 <= i < |os| ==> NumbersIn(os[i].value, s)
    ensures forall i :: 0 <= i < |ms| ==> SameAt(ms, i, os)
    decreases ms, 0
  {
    hide NumbersIn, Equals, NearIsTransitive;
    forall i | 0 <= i < |ms|
      ensures SameAt(ms, i, os)
    {
      var name := ms[i].name;
      var k, j, l := IndexOf(ms, name), IndexOf(ns, name), IndexOf(os, name);
      assert SameAt(ms, i, ns) && SameAt(ns, j, os);
      EqualsTransitive(ms[k].value, ns[j].value, os[l].value, s);
    }
  }

  /** On values whose numbers come from `s`, the comparison is transitive exactly when
    the tolerance is transitive among those numbers. */
  lemma TransitiveExactly(s: iset<real>)
    ensures EqualsIsTransitive(s) <==> NearIsTransitive(s)
  {
    if NearIsTransitive(s) {
      forall a, b, c | NumbersIn(a, s) && NumbersIn(b, s) && NumbersIn(c, s) && Equals(a, b) && Equals(b, c)
        ensures Equals(a, c)
      {
        EqualsTransitive(a, b, c, s);
      }
    }
    if EqualsIsTransitive(s) {
      forall x, y, z | x in s && y in s && z in s && Near(x, y) && Near(y, z)
        ensures Near(x, z)
      {
        assert NumbersIn(Number(x), s) && NumbersIn(Number(y), s) && NumbersIn(Number(z), s);
        assert Equals(Number(x), Number(y)) && Equals(Number(y), Number(z));
        assert Equals(Number(x), Number(z));
      }
    }
  }

  predicate Integral(x: real) {
    x.Floor as real == x
  }

  /** Two integers within the tolerance are the same, so integers are such numbers. */
  lemma IntegersTransitive()
    ensures EqualsIsTransitive(iset x: real | Integral(x))
  {
    var s := iset x: real | Integral(x);
    forall x, y, z | x in s && y in s && z in s && Near(x, y) && Near(y, z)
      ensures Near(x, z)
    {
      assert x.Floor == y.Floor == z.Floor;
    }
    TransitiveExactly(s);
  }

  /** Numbers in general are not. */
  lemma EqualsNotTransitive()
    ensures exists a, b, c :: Equals(a, b) && Equals(b, c) && !Equals(a, c)
  {
    var a, b, c := Number(0.0), Number(0.0000006), Number(0.0000012);
    assert Equals(a, b) && Equals(b, c) && !Equals(a, c);
  }

  // ----- deep copy ---------------------------------------------------------

  /** `json_value_deep_copy`: the same tree, or NULL when some object has a
    duplicate name, which no object built through the interface has. */
  method DeepCopy(v: Json) returns (r: Option<Json>)
    ensures r == if NamesUnique(v) then Some(v) else None
    ensures r.Some? ==> Equals(v, r.value) && Equals(r.value, v)
    decreases v
  {
    hide Equals;
    EqualsReflexive(v);
    match v
    case Array(items) =>
      var copy: seq<Json> := [];
      var i := 0;
      while i < |items|
        invariant 0 <= i <= |items|
        invariant copy == items[..i]
        invariant forall k :: 0 <= k < i ==> NamesUnique(items[k])
      {
        var c := DeepCopy(items[i]);
        if c.None? {
          return None;
        }
        copy := copy + [c.value];
        i := i + 1;
      }
      assert copy == items;
      return Some(Array(copy));
    case Object(ms) =>
      var copy: seq<Member> := [];
      var i := 0;
      while i < |ms|
        invariant 0 <= i <= |ms|
        invariant copy == ms[..i] && UniqueNames(copy)
        invariant forall k :: 0 <= k < i ==> NamesUnique(ms[k].value)
      {
        var k := IndexOf(ms, ms[i].name);
        assert k <= i;
        var c := DeepCopy(ms[k].value);
        if c.None? || GetValue(copy, ms[i].name).Some? {
          assert !(UniqueNames(ms) && forall k :: 0 <= k < |ms| ==> NamesUnique(ms[k].value));
          return None;
        }
        assert k == i;
        copy := copy + [Member(ms[i].name, c.value)];
        i := i + 1;
      }
      assert copy == ms;
      return Some(Object(copy));
    case _ => return Some(v);
  }

  // ----- validation --------------------------------------------------------

  /** Equal values pass exactly the same schemas. */
  lemma ValidateRespectsEquals(schema: Json, v: Json, w: Json)
    requires NamesUnique(v) && NamesUnique(w) && Equals(v, w)
    ensures Validate(schema, v) <==> Validate(schema, w)
  {
    EqualsSymmetric(v, w);
    if Validate(schema, v) {
      ValidateTransfers(schema, v, w);
    }
    if Validate(schema, w) {
      ValidateTransfers(schema, w, v);
    }
  }

  lemma {:induction false} ValidateTransfers(schema: Json, v: Json, w: Json)
    requires NamesUnique(v) && NamesUnique(w) && Equals(v, w) && Validate(schema, v)
    ensures Validate(schema, w)
    decreases schema
  {
    match schema
    case Array(items) =>
      if items != [] {
        forall i | 0 <= i < |w.items|
          ensures Validate(items[0], w.items[i])
        {
          ValidateTransfers(items[0], v.items[i], w.items[i]);
        }
      }
    case Object(ms) =>
      if ms != [] {
        MembersTransfer(ms, v.members, w.members);
      }
    case _ =>
  }

  lemma {:induction false} MembersTransfer(ms: seq<Member>, vs: seq<Member>, ws: seq<Member>)
    requires UniqueNames(vs) && UniqueNames(ws)
    requires forall i :: 0 <= i < |vs| ==> NamesUnique(vs[i].value)
    requires forall i :: 0 <= i < |ws| ==> NamesUnique(ws[i].value)
    requires forall i :: 0 <= i < |vs| ==> SameAt(vs, i, ws)
    requires forall i :: 0 <= i < |ms| ==> ValidAt(ms, i, vs)
    ensures forall i :: 0 <= i < |ms| ==> ValidAt(ms, i, ws)
    decreases ms, 0
  {
    hide NamesUnique, Equals, Validate;
    forall i | 0 <= i < |ms|
      ensures ValidAt(ms, i, ws)
    {
      var k, j := IndexOf(ms, ms[i].name), IndexOf(vs, ms[i].name);
      assert k <= i && ValidAt(ms, i, vs);
      var n := Looked(vs, ws, j);
      UniqueIndex(ws, n);
      ValidateTransfers(ms[k].value, vs[j].value, ws[n].value);
    }
  }
}
