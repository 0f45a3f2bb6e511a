/** The doubly linked list of list.c with its embedded cursor. */
module LinkedList {
  import opened Wrappers
  import M = ListModel

  class Node<T> {
    var item: T
    var prev: Node?<T>
    var next: Node?<T>

    /** `_newitem` */
    constructor (item: T)
      ensures this.item == item && prev == null && next == null
    {
      this.item := item;
      prev, next := null, null;
    }
  }

  ghost predicate Distinct<T>(s: seq<T>) {
    forall i, j :: 0 <= i < j < |s| ==> s[i] != s[j]
  }

  class List<T(!new, ==)> {
    var first: Node?<T>
    var last: Node?<T>
    var next: Node?<T>
    ghost var nodes: seq<Node<T>>   // the nodes, in order
    ghost var items: seq<T>         // their payloads
    ghost var cursor: Option<nat>   // the position of the node under `next`
    ghost var repr: set<Node<T>>

    /** The links mirror the sequence of nodes. */
    ghost predicate Valid()
      reads this, repr
    {
      && |items| == |nodes| && Distinct(nodes)
      && (forall i :: 0 <= i < |nodes| ==> nodes[i] in repr)
      && Holds(nodes, items) && Linked(nodes)
      && first == NodeAt(0) && last == NodeAt(|nodes| - 1)
      && (cursor.Some? ==> cursor.value < |nodes|)
      && next == Under(nodes, cursor)
    }

    static ghost predicate Holds(ns: seq<Node<T>>, xs: seq<T>)
      requires |ns| == |xs|
      reads ns
    {
      forall i {:trigger ns[i].item} :: 0 <= i < |ns| ==> ns[i].item == xs[i]
    }

    static ghost predicate Linked(ns: seq<Node<T>>)
      reads ns
    {
      && (forall i {:trigger ns[i].prev} :: 0 <= i < |ns| ==> ns[i].prev == At(ns, i - 1))
      && (forall i {:trigger ns[i].next} :: 0 <= i < |ns| ==> ns[i].next == At(ns, i + 1))
    }

    static ghost function At(ns: seq<Node<T>>, i: int): Node?<T> {
      if 0 <= i < |ns| then ns[i] else null
    }

    ghost function NodeAt(i: int): Node?<T>
      reads this`nodes
    {
      At(nodes, i)
    }

    ghost function State(): M.State<T>
      reads this`items, this`cursor
    {
      M.State(items, cursor)
    }

    /** `list_create` */
    constructor ()
      ensures Valid() && repr == {} && State() == M.State([], None)
    {
      first, last, next := null, null, null;
      nodes, items, cursor, repr := [], [], None, {};
    }

    /** `list_add` */
    method Add(item: T)
      requires Valid()
      modifies this, repr
      ensures Valid()
      ensures State() == M.Add(old(State()), item)
      ensures fresh(repr - old(repr))
    {
      var n := new Node(item);
      Append(n);
    }

    /** The linking of the new node. */
    method Append(n: Node<T>)
      requires Valid() && n !in repr && n.prev == null && n.next == null
      modifies this, n, repr`next
      ensures Valid() && repr == old(repr) + {n}
      ensures State() == M.Add(old(State()), n.item) && n.item == old(n.item)
    {
      if first == null {
        first, last, next := n, n, n;
        cursor := Some(0);
        nodes, items, repr := [n], [n.item], repr + {n};
      } else {
        AppendBehind(n);
      }
    }

    /** The node goes behind the last one. */
    method AppendBehind(n: Node<T>)
      requires Valid() && n !in repr && n.prev == null && n.next == null && first != null
      modifies this, n, repr`next
      ensures Valid() && repr == old(repr) + {n}
      ensures items == old(items) + [old(n.item)] && cursor == old(cursor) && n.item == old(n.item)
    {
      LinkBehind(n);
      AppendDistinct(nodes, n);
      AppendLinks(nodes, items, n);
      hide Distinct, Linked, Holds, Behind;
      last := n;
      nodes, items, repr := nodes + [n], items + [n.item], repr + {n};
    }

    /** The links of the old last node and the new one. */
    method LinkBehind(n: Node<T>)
      requires Valid() && n !in repr && n.prev == null && n.next == null && first != null
      modifies last`next, n`prev
      ensures Behind(nodes, n) && Holds(nodes, items)
    {
      hide Distinct;
      LinkNext(nodes, last, n, |nodes| - 1);
      n.prev := last;
    }

    /** The node hangs behind the others, but is not listed yet. */
    static ghost predicate Behind(ns: seq<Node<T>>, n: Node<T>)
      reads ns, n
    {
      && (forall i {:trigger ns[i].prev} :: 0 <= i < |ns| ==> ns[i].prev == At(ns, i - 1))
      && (forall i {:trigger ns[i].next} :: 0 <= i < |ns| ==> ns[i].next == if i == |ns| - 1 then n else At(ns, i + 1))
      && n.prev == At(ns, |ns| - 1) && n.next == null
    }

    static lemma AppendLinks(ns: seq<Node<T>>, xs: seq<T>, n: Node<T>)
      requires |ns| == |xs| && Behind(ns, n) && Holds(ns, xs)
      ensures Linked(ns + [n]) && Holds(ns + [n], xs + [n.item])
    {
      var ms := ns + [n];
      forall i | 0 <= i < |ms|
        ensures ms[i].prev == At(ms, i - 1) && ms[i].next == At(ms, i + 1)
      {
        assert i < |ns| ==> ms[i] == ns[i] && ns[i].prev == ms[i].prev && ns[i].next == ms[i].next;
      }
    }

    static lemma AppendDistinct(ns: seq<Node<T>>, n: Node<T>)
      requires Distinct(ns) && forall i :: 0 <= i < |ns| ==> ns[i] != n
      ensures Distinct(ns + [n])
    {
    }

    /** `list_get_next` */
    method GetNext() returns (r: Option<T>)
      requires Valid()
      modifies this`next, this`cursor
      ensures Valid() && nodes == old(nodes) && repr == old(repr)
      ensures (r, State()) == M.GetNext(old(State()))
    {
      r := None;
      if next != null {
        r := Some(next.item);
        next := next.next;
        cursor := M.At(cursor.value + 1, |nodes|);
      }
    }

    /** `list_is_next` */
    method IsNext() returns (b: bool)
      requires Valid()
      ensures b <==> cursor.Some?
    {
      b := next != null;
    }

    /** `list_reset` */
    method Reset()
      requires Valid()
      modifies this`next, this`cursor
      ensures Valid() && nodes == old(nodes) && repr == old(repr)
      ensures State() == M.Reset(old(State()))
    {
      next := first;
      cursor := M.At(0, |nodes|);
    }

    /** `list_count` */
    method Count() returns (n: nat)
      requires Valid()
      ensures n == |items|
    {
      var ip := first;
      n := 0;
      while ip != null
        invariant 0 <= n <= |nodes| && ip == NodeAt(n)
        decreases |nodes| - n
      {
        n := n + 1;
        ip := ip.next;
      }
    }

    /** `list_delete` */
    method Delete(item: T) returns (found: bool)
      requires Valid()
      modifies this, repr
      ensures Valid()
      ensures (found, State()) == M.Delete(old(State()), item)
      ensures repr == old(repr)
    {
      var ip := first;
      ghost var k := 0;
      while ip != null
        invariant 0 <= k <= |nodes| && ip == NodeAt(k)
        invariant forall i :: 0 <= i < k ==> items[i] != item
        decreases |nodes| - k
      {
        if item == ip.item {
          FirstFound(items, item, k);
          Unlink(ip, k);
          return true;
        }
        ip := ip.next;
        k := k + 1;
      }
      return false;
    }

    lemma FirstFound(items: seq<T>, x: T, k: nat)
      requires k < |items| && items[k] == x && forall i :: 0 <= i < k ==> items[i] != x
      ensures M.IndexOf(items, x) == k
    {
    }

    /** The fixing of the links around the node to delete. */
    method Unlink(ip: Node<T>, ghost k: nat)
      requires Valid() && k < |nodes| && ip == nodes[k]
      modifies this, repr
      ensures Valid() && repr == old(repr)
      ensures items == old(items[..k] + items[k + 1..])
      ensures cursor == M.CursorAfter(old(cursor), k, |old(nodes)|)
    {
      hide Distinct, Linked, Holds, Bypassed;
      var before, after := Bypass(ip, k);
      Retarget(ip, k, before, after);
    }

    /** The list with node `k` bypassed, but still listed. */
    ghost predicate Between(k: nat)
      reads this, repr
    {
      && |items| == |nodes| && Distinct(nodes) && k < |nodes|
      && (forall i :: 0 <= i < |nodes| ==> nodes[i] in repr)
      && Holds(nodes, items) && Bypassed(nodes, k)
      && first == NodeAt(0) && last == NodeAt(|nodes| - 1)
      && (cursor.Some? ==> cursor.value < |nodes|)
      && next == Under(nodes, cursor)
    }

    /** `first`, `last` and `next` leave the deleted node. */
    method Retarget(ip: Node<T>, ghost k: nat, before: Node?<T>, after: Node?<T>)
      requires Between(k) && ip == nodes[k] && before == NodeAt(k - 1) && after == NodeAt(k + 1)
      modifies this
      ensures Valid() && repr == old(repr)
      ensures items == old(items[..k] + items[k + 1..])
      ensures cursor == M.CursorAfter(old(cursor), k, |old(nodes)|)
    {
      hide Distinct, Linked, Holds, Bypassed, At, Under, M.CursorAfter;
      ghost var ns, xs := nodes, items;
      CutNodes(ns, k);
      CutLinks(ns, xs, k);
      CutEnds(ns, k, cursor);
      if ip == first {
        first := after;
      }
      if ip == last {
        last := before;
      }
      if ip == next {
        next := after;
      }
      cursor := M.CursorAfter(cursor, k, |ns|);
      nodes, items := ns[..k] + ns[k + 1..], xs[..k] + xs[k + 1..];
    }

    /** The node under a cursor. */
    static ghost function Under(ns: seq<Node<T>>, cursor: Option<nat>): Node?<T> {
      if cursor.Some? then At(ns, cursor.value) else null
    }

    static lemma CutEnds(ns: seq<Node<T>>, k: nat, cursor: Option<nat>)
      requires k < |ns| && Distinct(ns) && (cursor.Some? ==> cursor.value < |ns|)
      ensures var ms, c := ns[..k] + ns[k + 1..], M.CursorAfter(cursor, k, |ns|);
              && At(ms, 0) == (if ns[k] == At(ns, 0) then At(ns, k + 1) else At(ns, 0))
              && At(ms, |ms| - 1) == (if ns[k] == At(ns, |ns| - 1) then At(ns, k - 1) else At(ns, |ns| - 1))
              && (c.Some? ==> c.value < |ms|)
              && Under(ms, c) == (if ns[k] == Under(ns, cursor) then At(ns, k + 1) else Under(ns, cursor))
    {
    }

    lemma CutNodes(ns: seq<Node<T>>, k: nat)
      requires k < |ns| && Distinct(ns)
      ensures Distinct(ns[..k] + ns[k + 1..])
      ensures forall i :: 0 <= i < |ns| - 1 ==> (ns[..k] + ns[k + 1..])[i] == if i < k then ns[i] else ns[i + 1]
    {
    }

    /** Node `k` has been bypassed. */
    static ghost predicate Bypassed(ns: seq<Node<T>>, k: nat)
      reads ns
    {
      && (forall i {:trigger ns[i].prev} :: 0 <= i < |ns| ==> ns[i].prev == At(ns, if i == k + 1 then k - 1 else i - 1))
      && (forall i {:trigger ns[i].next} :: 0 <= i < |ns| ==> ns[i].next == At(ns, if i + 1 == k then k + 1 else i + 1))
    }

    static lemma CutLinks(ns: seq<Node<T>>, xs: seq<T>, k: nat)
      requires k < |ns| == |xs| && Bypassed(ns, k) && Holds(ns, xs)
      ensures Linked(ns[..k] + ns[k + 1..]) && Holds(ns[..k] + ns[k + 1..], xs[..k] + xs[k + 1..])
    {
      var ms, ys := ns[..k] + ns[k + 1..], xs[..k] + xs[k + 1..];
      forall i | 0 <= i < |ms|
        ensures ms[i].item == ys[i] && ms[i].prev == At(ms, i - 1) && ms[i].next == At(ms, i + 1)
      {
        var j := if i < k then i else i + 1;
        assert ms[i] == ns[j] && ys[i] == xs[j];
        assert ns[j].item == xs[j] && ns[j].prev == ms[i].prev && ns[j].next == ms[i].next;
      }
    }

    /** The neighbours of the node are linked to each other. */
    method Bypass(ip: Node<T>, ghost k: nat) returns (before: Node?<T>, after: Node?<T>)
      requires Valid() && k < |nodes| && ip == nodes[k]
      modifies repr`prev, repr`next
      ensures before == NodeAt(k - 1) && after == NodeAt(k + 1)
      ensures Bypassed(nodes, k) && Holds(nodes, items)
    {
      hide Distinct, Under;
      before, after := ip.prev, ip.next;
      LinkNext(nodes, before, after, k - 1);
      LinkPrev(nodes, after, before, k + 1);
    }

    static method LinkNext(ghost ns: seq<Node<T>>, at: Node?<T>, to: Node?<T>, ghost k: int)
      requires Distinct(ns) && at == At(ns, k)
      modifies (if at == null then {} else {at})`next
      ensures forall i {:trigger ns[i].next} :: 0 <= i < |ns| ==> ns[i].next == if i == k then to else old(ns[i].next)
    {
      OthersDiffer(ns, k);
      if at != null {
        at.next := to;
      }
    }

    static method LinkPrev(ghost ns: seq<Node<T>>, at: Node?<T>, to: Node?<T>, ghost k: int)
      requires Distinct(ns) && at == At(ns, k)
      modifies (if at == null then {} else {at})`prev
      ensures forall i {:trigger ns[i].prev} :: 0 <= i < |ns| ==> ns[i].prev == if i == k then to else old(ns[i].prev)
    {
      OthersDiffer(ns, k);
      if at != null {
        at.prev := to;
      }
    }

    static lemma OthersDiffer(ns: seq<Node<T>>, k: int)
      requires Distinct(ns)
      ensures forall i :: 0 <= i < |ns| && i != k ==> ns[i] != At(ns, k)
    {
    }

    /** `list_add_list` */
    method AddList(other: List<T>)
      requires Valid() && other.Valid() && this != other && repr !! other.repr
      modifies this, repr
      ensures Valid() && fresh(repr - old(repr))
      ensures State() == M.AddAll(old(State()), other.items)
    {
      ghost var i := 0;
      var ip := other.first;
      while ip != null
        invariant 0 <= i <= |other.nodes| && ip == other.NodeAt(i)
        invariant Valid() && fresh(repr - old(repr)) && repr !! other.repr
        invariant other.Valid()
        invariant M.AddAll(State(), other.items[i..]) == M.AddAll(old(State()), other.items)
        decreases |other.nodes| - i
      {
        assert other.items[i..][0] == ip.item && other.items[i..][1..] == other.items[i + 1..];
        Add(ip.item);
        ip := ip.next;
        i := i + 1;
      }
    }

    /** `list_dup` */
    method Dup() returns (copy: List<T>)
      requires Valid()
      ensures fresh(copy) && copy.Valid() && fresh(copy.repr)
      ensures copy.State() == M.AddAll(M.State([], None), items)
    {
      copy := new List();
      copy.AddList(this);
    }
  
    // ----- list_sort -------------------------------------------------------

    /** `list_sort`: payloads are swapped between nodes until no later one
      belongs before an earlier one.  The nodes, their links and the cursor stay.
      It ends because a swap puts at position `i` an element with fewer later
      ones on its wrong side. */
    method Sort(compare: (T, T) -> int, order: int)
      requires Valid() && M.StrictOrder(compare, if order == 0 then 1 else -1)
      modifies repr`item, this`items
      ensures Valid() && nodes == old(nodes) && cursor == old(cursor)
      ensures multiset(items) == multiset(old(items))
      ensures M.Ordered(items, compare, if order == 0 then 1 else -1)
    {
      var comp := if order == 0 then 1 else -1;
      var ip1 := first;
      ghost var i := 0;
      while ip1 != null
        invariant Valid() && nodes == old(nodes) && cursor == old(cursor)
        invariant multiset(items) == multiset(old(items))
        invariant 0 <= i <= |nodes| && ip1 == NodeAt(i)
        invariant Settled(items, i, compare, comp)
        decreases |nodes| - i, if i < |items| then Wrong(items, i, compare, comp) else 0
      {
        hide M.StrictOrder, Settled, Wrong, Linked, Holds, Distinct;
        var ip2, j := FindWrong(ip1, i, compare, comp);
        NextNode(i);
        if ip2 != null {
          SwapCloser(items, i, j, compare, comp);
          SwapItems(ip1, ip2, i, j);
        } else {
          SettledNext(items, i, compare, comp);
          ip1 := ip1.next;
          i := i + 1;
        }
      }
      SettledAll(items, compare, comp);
    }

    lemma NextNode(i: nat)
      requires Valid() && i < |nodes|
      ensures nodes[i].next == NodeAt(i + 1)
    {
    }

    /** The inner loop: the first later element on the wrong side of element `i`. */
    method FindWrong(ip1: Node<T>, ghost i: nat, compare: (T, T) -> int, comp: int) returns (ip2: Node?<T>, ghost j: nat)
      requires Valid() && i < |nodes| && ip1 == nodes[i]
      ensures i < j <= |nodes| && ip2 == NodeAt(j)
      ensures j < |nodes| ==> compare(items[i], items[j]) == comp
      ensures forall k :: i < k < j ==> compare(items[i], items[k]) != comp
    {
      hide Distinct;
      ip2 := ip1.next;
      j := i + 1;
      while ip2 != null
        invariant i < j <= |nodes| && ip2 == NodeAt(j)
        invariant forall k :: i < k < j ==> compare(items[i], items[k]) != comp
        decreases |nodes| - j
      {
        if compare(ip1.item, ip2.item) == comp {
          break;
        }
        ip2 := ip2.next;
        j := j + 1;
      }
    }

    /** The exchange of two payloads. */
    method SwapItems(ip1: Node<T>, ip2: Node<T>, ghost i: nat, ghost j: nat)
      requires Valid() && i < j < |nodes| && ip1 == nodes[i] && ip2 == nodes[j]
      modifies repr`item, this`items
      ensures Valid() && nodes == old(nodes) && items == Swapped(old(items), i, j)
    {
      hide Distinct;
      OthersDiffer(nodes, i);
      OthersDiffer(nodes, j);
      ip1.item, ip2.item := ip2.item, ip1.item;
      items := Swapped(items, i, j);
    }
  }

  // ----- the measure of list_sort --------------------------------------------

  function Swapped<T>(s: seq<T>, i: nat, j: nat): seq<T>
    requires i < |s| && j < |s|
  {
    s[i := s[j]][j := s[i]]
  }

  /** Before position `n` every element is in order with all later ones. */
  ghost predicate Settled<T>(s: seq<T>, n: nat, compare: (T, T) -> int, comp: int) {
    forall i, j :: 0 <= i < n && i < j < |s| ==> compare(s[i], s[j]) != comp
  }

  lemma SettledNext<T>(s: seq<T>, n: nat, compare: (T, T) -> int, comp: int)
    requires Settled(s, n, compare, comp) && n < |s|
    requires forall k :: n < k < |s| ==> compare(s[n], s[k]) != comp
    ensures Settled(s, n + 1, compare, comp)
  {
  }

  lemma SettledAll<T>(s: seq<T>, compare: (T, T) -> int, comp: int)
    requires Settled(s, |s|, compare, comp)
    ensures M.Ordered(s, compare, comp)
  {
  }

  ghost function WrongSide<T>(s: seq<T>, i: nat, compare: (T, T) -> int, comp: int): set<int>
    requires i < |s|
  {
    set k | i < k < |s| && compare(s[i], s[k]) == comp
  }

  /** How many later elements belong before element `i`. */
  ghost function Wrong<T>(s: seq<T>, i: nat, compare: (T, T) -> int, comp: int): nat
    requires i < |s|
  {
    |WrongSide(s, i, compare, comp)|
  }

  /** Bringing forward an element that belongs before element `i` leaves fewer
    such elements, keeps the settled part settled and the elements the same. */
  lemma SwapCloser<T(!new)>(s: seq<T>, i: nat, j: nat, compare: (T, T) -> int, comp: int)
    requires i < j < |s| && compare(s[i], s[j]) == comp
    requires M.StrictOrder(compare, comp)
    ensures Wrong(Swapped(s, i, j), i, compare, comp) < Wrong(s, i, compare, comp)
    ensures Settled(s, i, compare, comp) ==> Settled(Swapped(s, i, j), i, compare, comp)
    ensures multiset(Swapped(s, i, j)) == multiset(s)
  {
    var t := Swapped(s, i, j);
    var before, after := WrongSide(s, i, compare, comp), WrongSide(t, i, compare, comp);
    Asymmetric(compare, comp, s[i], s[j]);
    assert forall k :: k in after ==> k in before && k != j;
    assert j in before;
    FewerOf(after, before, j);
  }

  lemma Asymmetric<T(!new)>(compare: (T, T) -> int, comp: int, x: T, y: T)
    requires M.StrictOrder(compare, comp) && compare(x, y) == comp
    ensures compare(y, x) != comp
  {
  }

  lemma FewerOf(a: set<int>, b: set<int>, x: int)
    requires a <= b && x in b && x !in a
    ensures |a| < |b|
  {
    assert b == a + (b - a) && x in b - a;
  }
}
