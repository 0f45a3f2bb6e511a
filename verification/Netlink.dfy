/** Type-length-value attributes of netlink messages: `addattr_l`, `addattr32`,
  `parse_rtattr` and the nested request of `do_set_nl_link`. */
module Netlink {
  import opened Bytes
  import opened Wrappers

  datatype Attr = Attr(kind: nat, payload: seq<byte>)

  predicate Aligned(n: nat) {
    n % 4 == 0
  }

  function Align(n: nat): (m: nat)
    ensures n <= m < n + 4 && Aligned(m)
    ensures Aligned(n) ==> m == n
  {
    (n + 3) / 4 * 4
  }

  lemma AlignedSum(m: nat, n: nat)
    requires Aligned(m) && Aligned(n)
    ensures Aligned(m + n)
  {
  }

  /** A 16-bit field, low byte first; what does not fit is lost. */
  function Half(v: nat): (b: seq<byte>)
    ensures |b| == 2
  {
    [(v % 256) as byte, (v / 256 % 256) as byte]
  }

  /** A 32-bit value, low byte first. */
  function Word(v: nat): (b: seq<byte>)
    ensures |b| == 4
  {
    Half(v % 0x1_0000) + Half(v / 0x1_0000)
  }

  function HalfAt(region: seq<byte>, at: nat): (v: nat)
    requires at + 2 <= |region|
  {
    region[at] as int + 256 * region[at + 1] as int
  }

  lemma HalfRoundTrip(region: seq<byte>, at: nat, v: nat)
    requires at + 2 <= |region| && region[at..at + 2] == Half(v) && v < 0x1_0000
    ensures HalfAt(region, at) == v
  {
    assert region[at] == region[at..at + 2][0] && region[at + 1] == region[at..at + 2][1];
  }

  /** An attribute: length and type, then the payload. */
  function Encode(a: Attr): (b: seq<byte>)
    ensures |b| == 4 + |a.payload|
  {
    Half(4 + |a.payload|) + Half(a.kind) + a.payload
  }

  /** Length and type fit their 16-bit fields. */
  predicate Fits(a: Attr) {
    a.kind < 0x1_0000 && 4 + |a.payload| < 0x1_0000
  }

  // ----- reading ------------------------------------------------------------

  /** RTA_OK */
  predicate RtaOk(region: seq<byte>) {
    |region| >= 4 && 4 <= HalfAt(region, 0) <= |region|
  }

  /** RTA_NEXT, where a region that is used up is empty. */
  function Next(region: seq<byte>): (rest: seq<byte>)
    requires RtaOk(region)
    ensures |rest| < |region|
  {
    var step := Align(HalfAt(region, 0));
    if step <= |region| then region[step..] else []
  }

  function First(region: seq<byte>): Attr
    requires RtaOk(region)
  {
    Attr(HalfAt(region, 2), region[4..HalfAt(region, 0)])
  }

  /** Every attribute met in the region. */
  function Parsed(region: seq<byte>): seq<Attr>
    decreases |region|
  {
    if !RtaOk(region) then [] else [First(region)] + Parsed(Next(region))
  }

  /** Where the last attribute of a type starts. */
  function Lookup(region: seq<byte>, base: nat, kind: nat): Option<nat>
    decreases |region|
  {
    if !RtaOk(region) then None
    else
      var later := Lookup(Next(region), base + Align(HalfAt(region, 0)), kind);
      if later.Some? then later
      else if HalfAt(region, 2) == kind then Some(base) else None
  }

  /** `parse_rtattr` over any bytes: it ends, and each entry of the table points at
    the last attribute of its type. */
  method ParseRtattr(tb: array<Option<nat>>, max: nat, buf: seq<byte>, start: nat, size: nat)
    requires max < tb.Length && start + size <= |buf|
    modifies tb
    ensures forall t :: 0 <= t <= max ==> tb[t] == Lookup(buf[start..start + size], start, t)
    ensures forall t :: max < t < tb.Length ==> tb[t] == old(tb[t])
  {
    hide Pending, Align, Next, HalfAt, RtaOk, Lookup;
    forall t | 0 <= t <= max {
      tb[t] := None;
    }
    var rta, len: int := start, size;
    ghost var whole, region := buf[start..start + size], buf[start..start + size];
    PendingStart(whole, start, max, tb[..]);
    while len >= 4 && 4 <= HalfAt(buf, rta) <= len
      invariant start <= rta
      invariant len <= 0 ==> region == []
      invariant 0 < len ==> rta + len == start + size && region == buf[rta..rta + len]
      invariant Pending(whole, start, region, rta, max, tb[..])
      invariant forall t :: max < t < tb.Length ==> tb[t] == old(tb[t])
      decreases len
    {
      HeaderAt(region, buf, rta, len);
      ghost var before := tb[..];
      if HalfAt(buf, rta + 2) <= max {
        tb[HalfAt(buf, rta + 2)] := Some(rta);
      }
      TableStep(whole, start, region, rta, max, before, tb[..]);
      NextRegion(region, buf, rta, len);
      var step := Align(HalfAt(buf, rta));
      region := Next(region);
      rta, len := rta + step, len - step;
    }
    PendingEnd(whole, start, region, buf, rta, len, max, tb[..]);
  }

  /** What the table holds, completed by the rest of the region, is the result. */
  ghost predicate Pending(whole: seq<byte>, start: nat, region: seq<byte>, rta: nat, max: nat, tb: seq<Option<nat>>) {
    max < |tb| && forall t :: 0 <= t <= max ==> Lookup(whole, start, t) == Or(Lookup(region, rta, t), tb[t])
  }

  function Or(a: Option<nat>, b: Option<nat>): Option<nat> {
    if a.Some? then a else b
  }

  lemma LookupStep(region: seq<byte>, base: nat, kind: nat)
    requires RtaOk(region)
    ensures Lookup(region, base, kind) ==
            Or(Lookup(Next(region), base + Align(HalfAt(region, 0)), kind),
               if HalfAt(region, 2) == kind then Some(base) else None)
  {
  }

  lemma PendingStart(whole: seq<byte>, start: nat, max: nat, tb: seq<Option<nat>>)
    requires max < |tb| && forall t :: 0 <= t <= max ==> tb[t] == None
    ensures Pending(whole, start, whole, start, max, tb)
  {
  }

  lemma PendingEnd(whole: seq<byte>, start: nat, region: seq<byte>, buf: seq<byte>, rta: nat, len: int, max: nat,
                   tb: seq<Option<nat>>)
    requires Pending(whole, start, region, rta, max, tb)
    requires len <= 0 ==> region == []
    requires 0 < len ==> rta + len <= |buf| && region == buf[rta..rta + len]
    requires !(len >= 4 && 4 <= HalfAt(buf, rta) <= len)
    ensures forall t :: 0 <= t <= max ==> tb[t] == Lookup(whole, start, t)
  {
    hide Lookup, HalfAt;
    forall t | 0 <= t <= max
      ensures tb[t] == Lookup(whole, start, t)
    {
      LookupEnd(region, buf, rta, len, t);
    }
  }

  /** Recording one attribute hands the rest of the lookup to the rest of the region. */
  lemma TableStep(whole: seq<byte>, start: nat, region: seq<byte>, base: nat, max: nat,
                  before: seq<Option<nat>>, after: seq<Option<nat>>)
    requires RtaOk(region) && Pending(whole, start, region, base, max, before)
    requires after == if HalfAt(region, 2) <= max then before[HalfAt(region, 2) := Some(base)] else before
    ensures Pending(whole, start, Next(region), base + Align(HalfAt(region, 0)), max, after)
  {
    hide Lookup, Align, Next, HalfAt;
    forall t | 0 <= t <= max
      ensures Lookup(whole, start, t) ==
              Or(Lookup(Next(region), base + Align(HalfAt(region, 0)), t), after[t])
    {
      LookupStep(region, base, t);
    }
  }

  lemma HeaderAt(region: seq<byte>, buf: seq<byte>, rta: nat, len: int)
    requires 4 <= len && rta + len <= |buf| && region == buf[rta..rta + len]
    ensures HalfAt(region, 0) == HalfAt(buf, rta) && HalfAt(region, 2) == HalfAt(buf, rta + 2)
    ensures RtaOk(region) <==> 4 <= HalfAt(buf, rta) <= len
  {
  }

  lemma NextRegion(region: seq<byte>, buf: seq<byte>, rta: nat, len: int)
    requires 0 < len && rta + len <= |buf| && region == buf[rta..rta + len] && RtaOk(region)
    ensures var step := Align(HalfAt(region, 0));
            Next(region) == if len - step <= 0 then [] else buf[rta + step..rta + len]
  {
  }

  lemma LookupEnd(region: seq<byte>, buf: seq<byte>, rta: nat, len: int, kind: nat)
    requires len <= 0 ==> region == []
    requires 0 < len ==> rta + len <= |buf| && region == buf[rta..rta + len]
    requires !(len >= 4 && 4 <= HalfAt(buf, rta) <= len)
    ensures Lookup(region, rta, kind) == None
  {
    if len >= 4 {
      assert HalfAt(region, 0) == HalfAt(buf, rta);
    }
  }

  lemma ParsedStep(region: seq<byte>)
    requires RtaOk(region)
    ensures Parsed(region) == [First(region)] + Parsed(Next(region))
    ensures First(region).kind == HalfAt(region, 2)
  {
  }

  /** An entry is empty exactly when no attribute of its type was met. */
  lemma {:induction false} LookupNone(region: seq<byte>, base: nat, kind: nat)
    ensures Lookup(region, base, kind).None? <==> forall a :: a in Parsed(region) ==> a.kind != kind
    decreases |region|
  {
    if RtaOk(region) {
      hide First, Align, Next, RtaOk, Parsed, HalfAt, Lookup;
      LookupNone(Next(region), base + Align(HalfAt(region, 0)), kind);
      ParsedStep(region);
      LookupStep(region, base, kind);
      assert First(region) in Parsed(region);
    }
  }

  /** Otherwise it leads to one that was. */
  lemma {:induction false} LookupLeads(region: seq<byte>, base: nat, kind: nat)
    requires Lookup(region, base, kind).Some?
    ensures Leads(region, base, kind, Lookup(region, base, kind).value)
    decreases |region|
  {
    hide First, Align, Next, Leads, Parsed, HalfAt, Lookup, RtaOk;
    LookupOk(region, base, kind);
    var later := base + Align(HalfAt(region, 0));
    LookupStep(region, base, kind);
    if Lookup(Next(region), later, kind).Some? {
      LookupLeads(Next(region), later, kind);
      LeadsFurther(region, base, kind, Lookup(Next(region), later, kind).value);
    } else {
      ParsedStep(region);
      LeadsHere(region, base, kind);
    }
  }

  lemma LookupOk(region: seq<byte>, base: nat, kind: nat)
    requires Lookup(region, base, kind).Some?
    ensures RtaOk(region) && |region| >= 4
  {
  }

  ghost predicate Leads(region: seq<byte>, base: nat, kind: nat, at: nat) {
    base <= at < base + |region| &&
    var here := region[at - base..];
    RtaOk(here) && First(here).kind == kind && First(here) in Parsed(region)
  }

  lemma LeadsHere(region: seq<byte>, base: nat, kind: nat)
    requires RtaOk(region) && First(region).kind == kind
    ensures Leads(region, base, kind, base)
  {
    hide HalfAt;
    ParsedStep(region);
    assert region[base - base..] == region;
  }

  lemma LeadsFurther(region: seq<byte>, base: nat, kind: nat, at: nat)
    requires RtaOk(region) && Leads(Next(region), base + Align(HalfAt(region, 0)), kind, at)
    ensures Leads(region, base, kind, at)
  {
    hide HalfAt, First, Parsed, Align;
    var step := Align(HalfAt(region, 0));
    ParsedStep(region);
    assert Next(region) == region[step..];
    assert region[step..][at - (base + step)..] == region[at - base..];
  }

  /** And none of its type was met behind it. */
  lemma {:induction false} LookupLast(region: seq<byte>, base: nat, kind: nat)
    requires Lookup(region, base, kind).Some?
    ensures NoneBehind(region, base, kind, Lookup(region, base, kind).value)
    decreases |region|
  {
    hide First, Align, Next, NoneBehind, Parsed, HalfAt, Lookup, RtaOk;
    LookupOk(region, base, kind);
    var later := base + Align(HalfAt(region, 0));
    LookupStep(region, base, kind);
    if Lookup(Next(region), later, kind).Some? {
      LookupLast(Next(region), later, kind);
      NoneBehindFurther(region, base, kind, Lookup(Next(region), later, kind).value);
    } else {
      LookupNone(Next(region), later, kind);
      NoneBehindHere(region, base, kind);
    }
  }

  ghost predicate NoneBehind(region: seq<byte>, base: nat, kind: nat, at: nat) {
    base <= at < base + |region| &&
    var here := region[at - base..];
    RtaOk(here) && forall a :: a in Parsed(Next(here)) ==> a.kind != kind
  }

  lemma NoneBehindHere(region: seq<byte>, base: nat, kind: nat)
    requires RtaOk(region) && forall a :: a in Parsed(Next(region)) ==> a.kind != kind
    ensures NoneBehind(region, base, kind, base)
  {
    hide HalfAt, Parsed, Next;
    assert region[base - base..] == region;
  }

  lemma NoneBehindFurther(region: seq<byte>, base: nat, kind: nat, at: nat)
    requires RtaOk(region) && NoneBehind(Next(region), base + Align(HalfAt(region, 0)), kind, at)
    ensures NoneBehind(region, base, kind, at)
  {
    hide HalfAt, Parsed, Align;
    var step := Align(HalfAt(region, 0));
    assert Next(region) == region[step..];
    assert region[step..][at - (base + step)..] == region[at - base..];
  }

  // ----- what writing leaves behind -----------------------------------------

  /** The region is the given attributes, each padded to four bytes with anything. */
  ghost predicate Encodes(region: seq<byte>, attrs: seq<Attr>)
    decreases |attrs|
  {
    if attrs == [] then region == []
    else
      var a := attrs[0];
      Align(4 + |a.payload|) <= |region| &&
      region[..4 + |a.payload|] == Encode(a) &&
      Encodes(region[Align(4 + |a.payload|)..], attrs[1..])
  }

  lemma FirstOfEncoded(region: seq<byte>, a: Attr)
    requires 4 + |a.payload| <= |region| && region[..4 + |a.payload|] == Encode(a) && Fits(a)
    ensures RtaOk(region) && HalfAt(region, 0) == 4 + |a.payload| && First(region) == a
  {
    hide Half, HalfAt;
    var n := 4 + |a.payload|;
    assert region[0..0 + 2] == region[..n][..2] == Half(n);
    assert region[2..2 + 2] == region[..n][2..4] == Half(a.kind);
    assert region[4..n] == region[..n][4..] == a.payload;
    HalfRoundTrip(region, 0, n);
    HalfRoundTrip(region, 2, a.kind);
  }

  /** Padding does not disturb the reader: the attributes are found, in order. */
  lemma {:induction false} ParsedEncoded(region: seq<byte>, attrs: seq<Attr>)
    requires Encodes(region, attrs) && forall a :: a in attrs ==> Fits(a)
    ensures Parsed(region) == attrs
    decreases |attrs|
  {
    hide Align, Encode, First, HalfAt, Fits;
    if attrs != [] {
      FirstOfEncoded(region, attrs[0]);
      ParsedEncoded(Next(region), attrs[1..]);
      assert attrs == [attrs[0]] + attrs[1..];
    }
  }

  lemma {:induction false} EncodesConcat(r: seq<byte>, s: seq<byte>, a: seq<Attr>, b: seq<Attr>)
    requires Encodes(r, a) && Encodes(s, b)
    ensures Encodes(r + s, a + b)
    decreases |a|
  {
    if a == [] {
      assert r + s == s && a + b == b;
    } else {
      hide Align, Encode, Encodes;
      var p, n := 4 + |a[0].payload|, Align(4 + |a[0].payload|);
      EncodesStep(r, a);
      EncodesConcat(r[n..], s, a[1..], b);
      ConcatSlices(r, s, p, n);
      ConcatSlices(a, b, 1, 1);
      EncodesStep(r + s, a + b);
    }
  }

  lemma ConcatSlices<T>(r: seq<T>, s: seq<T>, p: nat, n: nat)
    requires p <= n <= |r|
    ensures (r + s)[..p] == r[..p] && (r + s)[n..] == r[n..] + s
  {
  }

  lemma EncodesStep(region: seq<byte>, attrs: seq<Attr>)
    requires attrs != []
    ensures var p := 4 + |attrs[0].payload|;
            Encodes(region, attrs) <==>
            Align(p) <= |region| && region[..p] == Encode(attrs[0]) && Encodes(region[Align(p)..], attrs[1..])
  {
  }

  lemma EncodesOne(region: seq<byte>, a: Attr)
    requires |region| == Align(4 + |a.payload|) && region[..4 + |a.payload|] == Encode(a)
    ensures Encodes(region, [a])
  {
    assert [a][1..] == [] && region[|region|..] == [];
  }

  lemma {:induction false} EncodesAligned(region: seq<byte>, attrs: seq<Attr>)
    requires Encodes(region, attrs)
    ensures Aligned(|region|)
    decreases |attrs|
  {
    if attrs != [] {
      hide Encodes, Encode, Align, Aligned;
      var n := Align(4 + |attrs[0].payload|);
      EncodesStep(region, attrs);
      EncodesAligned(region[n..], attrs[1..]);
      AlignedSum(n, |region[n..]|);
    }
  }

  /** Distinct types: every attribute written is the one its table entry leads to,
    and the other entries stay empty. */
  lemma Recovered(region: seq<byte>, attrs: seq<Attr>, base: nat, kind: nat)
    requires Encodes(region, attrs) && forall a :: a in attrs ==> Fits(a)
    requires forall i, j :: 0 <= i < j < |attrs| ==> attrs[i].kind != attrs[j].kind
    ensures var o := Lookup(region, base, kind);
            o.None? <==> forall a :: a in attrs ==> a.kind != kind
    ensures forall a :: a in attrs && a.kind == kind ==>
                var o := Lookup(region, base, kind);
              o.Some? && Leads(region, base, kind, o.value) && First(region[o.value - base..]) == a
  {
    hide Encodes, Lookup, Parsed, RtaOk, First, Fits;
    ParsedEncoded(region, attrs);
    LookupNone(region, base, kind);
    if Lookup(region, base, kind).Some? {
      LookupLeads(region, base, kind);
    }
  }

  // ----- writing ------------------------------------------------------------

  /** A message under construction: its buffer and `nlmsg_len`. */
  datatype Message = Message(buf: seq<byte>, len: nat)

  datatype Call = Call(limit: nat, attr: Attr)

  function Put(buf: seq<byte>, at: nat, data: seq<byte>): (b: seq<byte>)
    requires at + |data| <= |buf|
    ensures |b| == |buf|
  {
    buf[..at] + data + buf[at + |data|..]
  }

  predicate Room(m: Message, c: Call) {
    Align(m.len) + Align(4 + |c.attr.payload|) <= c.limit
  }

  /** An attribute behind the aligned tail; a message without room stays. */
  function Added(m: Message, c: Call): Message
    requires c.limit <= |m.buf|
  {
    if !Room(m, c) then m
    else
      Message(Put(m.buf, Align(m.len), Encode(c.attr)), Align(m.len) + Align(4 + |c.attr.payload|))
  }

  class Builder {
    const buf: array<byte>
    var len: nat

    constructor (size: nat, len: nat)
      ensures fresh(buf) && buf.Length == size && this.len == len
      ensures buf[..] == Zeros(size)
    {
      buf := new byte[size](i => 0);
      this.len := len;
    }

    ghost function Value(): Message
      reads this, buf
    {
      Message(buf[..], len)
    }

    method Store(at: nat, data: seq<byte>)
      requires at + |data| <= buf.Length
      modifies buf
      ensures buf[..] == Put(old(buf[..]), at, data)
    {
      forall i | 0 <= i < |data| {
        buf[at + i] := data[i];
      }
    }

    /** `addattr_l` */
    method AddAttrL(maxLen: nat, kind: nat, data: seq<byte>) returns (r: int)
      requires maxLen <= buf.Length
      modifies this`len, buf
      ensures Value() == Added(old(Value()), Call(maxLen, Attr(kind, data)))
      ensures r == if Room(old(Value()), Call(maxLen, Attr(kind, data))) then 0 else -1
    {
      hide Half, Put;
      var size := 4 + |data|;
      if Align(len) + Align(size) > maxLen {
        return -1;
      }
      var at := Align(len);
      Store(at + 2, Half(kind));
      Store(at, Half(size));
      Store(at + 4, data);
      PutTogether(old(buf[..]), at, Half(size), Half(kind), data);
      len := at + Align(size);
      return 0;
    }

    /** `addattr32`, which does not align its eight bytes because they are. */
    method AddAttr32(maxLen: nat, kind: nat, value: nat) returns (r: int)
      requires maxLen <= buf.Length
      modifies this`len, buf
      ensures Value() == Added(old(Value()), Call(maxLen, Attr(kind, Word(value))))
      ensures r == if Room(old(Value()), Call(maxLen, Attr(kind, Word(value)))) then 0 else -1
    {
      hide Half, Word, Put;
      assert Align(8) == 8;
      var size := 8;
      if Align(len) + size > maxLen {
        return -1;
      }
      var at := Align(len);
      Store(at + 2, Half(kind));
      Store(at, Half(size));
      Store(at + 4, Word(value));
      PutTogether(old(buf[..]), at, Half(size), Half(kind), Word(value));
      len := at + size;
      return 0;
    }
  }

  lemma PutTogether(buf: seq<byte>, at: nat, a: seq<byte>, b: seq<byte>, data: seq<byte>)
    requires |a| == 2 && |b| == 2 && at + 4 + |data| <= |buf|
    ensures Put(Put(Put(buf, at + 2, b), at, a), at + 4, data) == Put(buf, at, a + b + data)
  {
    hide Put;
    PutIndex(buf, at + 2, b);
    PutIndex(Put(buf, at + 2, b), at, a);
    PutIndex(Put(Put(buf, at + 2, b), at, a), at + 4, data);
    PutIndex(buf, at, a + b + data);
  }

  lemma PutIndex(buf: seq<byte>, at: nat, data: seq<byte>)
    requires at + |data| <= |buf|
    ensures forall k :: 0 <= k < |buf| ==>
              Put(buf, at, data)[k] == if at <= k < at + |data| then data[k - at] else buf[k]
  {
  }

  function Run(m: Message, calls: seq<Call>): Message
    requires forall c :: c in calls ==> c.limit <= |m.buf|
    decreases |calls|
  {
    if calls == [] then m else Run(Added(m, calls[0]), calls[1..])
  }

  /** The attributes of the calls that found room. */
  function Taken(m: Message, calls: seq<Call>): seq<Attr>
    requires forall c :: c in calls ==> c.limit <= |m.buf|
    decreases |calls|
  {
    if calls == [] then []
    else (if Room(m, calls[0]) then [calls[0].attr] else []) + Taken(Added(m, calls[0]), calls[1..])
  }

  /** The attributes written from `start` on. */
  ghost predicate Holds(m: Message, start: nat, attrs: seq<Attr>) {
    start <= m.len <= |m.buf| && Aligned(m.len) && Encodes(m.buf[start..m.len], attrs)
  }

  lemma PutAtTail(buf: seq<byte>, start: nat, at: nat, end: nat, data: seq<byte>)
    requires start <= at && at + |data| <= end <= |buf|
    ensures var b := Put(buf, at, data);
            b[start..end] == buf[start..at] + b[at..end] && b[at..end][..|data|] == data && b[..at] == buf[..at]
  {
    var b := Put(buf, at, data);
    assert b[at..] == data + buf[at + |data|..];
    assert b[at..end] == (data + buf[at + |data|..])[..end - at];
  }

  lemma AddedHolds(m: Message, start: nat, attrs: seq<Attr>, c: Call)
    requires Holds(m, start, attrs) && c.limit <= |m.buf|
    ensures Holds(Added(m, c), start, attrs + if Room(m, c) then [c.attr] else [])
    ensures m.buf[..m.len] == Added(m, c).buf[..m.len] && m.len <= Added(m, c).len
  {
    hide Encodes, Encode, Put, Align, Aligned;
    if Room(m, c) {
      AlignedSum(m.len, Align(4 + |c.attr.payload|));
      var n := Added(m, c);
      PutAtTail(m.buf, start, m.len, n.len, Encode(c.attr));
      EncodesOne(n.buf[m.len..n.len], c.attr);
      EncodesConcat(m.buf[start..m.len], n.buf[m.len..n.len], attrs, [c.attr]);
    } else {
      assert attrs + [] == attrs;
    }
  }

  /** After any sequence of calls, the region holds the attributes of those that found
    room. */
  lemma {:induction false} RunHolds(m: Message, start: nat, attrs: seq<Attr>, calls: seq<Call>)
    requires Holds(m, start, attrs) && forall c :: c in calls ==> c.limit <= |m.buf|
    ensures Holds(Run(m, calls), start, attrs + Taken(m, calls))
    decreases |calls|
  {
    hide Holds, Added, Room;
    if calls == [] {
      assert attrs + [] == attrs;
    } else {
      AddedHolds(m, start, attrs, calls[0]);
      AddedSize(m, calls[0]);
      var one := if Room(m, calls[0]) then [calls[0].attr] else [];
      RunHolds(Added(m, calls[0]), start, attrs + one, calls[1..]);
      assert attrs + one + Taken(Added(m, calls[0]), calls[1..]) == attrs + Taken(m, calls);
    }
  }

  lemma AddedSize(m: Message, c: Call)
    requires c.limit <= |m.buf|
    ensures |Added(m, c).buf| == |m.buf|
  {
  }

  lemma {:induction false} TakenFit(m: Message, calls: seq<Call>)
    requires forall c :: c in calls ==> c.limit <= |m.buf| && c.limit < 0x1_0000 && c.attr.kind < 0x1_0000
    ensures forall a :: a in Taken(m, calls) ==> Fits(a)
    decreases |calls|
  {
    hide Added, Align;
    if calls != [] {
      AddedSize(m, calls[0]);
      TakenFit(Added(m, calls[0]), calls[1..]);
    }
  }

  /** Any sequence of calls, under limits and with types of sixteen bits, is read back:
    exactly the attributes that found room, in order. */
  lemma CallsReadBack(m: Message, calls: seq<Call>)
    requires m.len <= |m.buf| && Aligned(m.len)
    requires forall c :: c in calls ==> c.limit <= |m.buf| && c.limit < 0x1_0000 && c.attr.kind < 0x1_0000
    ensures var n := Run(m, calls);
            m.len <= n.len <= |n.buf| &&
            Encodes(n.buf[m.len..n.len], Taken(m, calls)) && Parsed(n.buf[m.len..n.len]) == Taken(m, calls)
  {
    hide Encodes, Parsed, Fits;
    StartsEmpty(m);
    RunHolds(m, m.len, [], calls);
    assert [] + Taken(m, calls) == Taken(m, calls);
    TakenFit(m, calls);
    var n := Run(m, calls);
    ParsedEncoded(n.buf[m.len..n.len], Taken(m, calls));
  }

  lemma StartsEmpty(m: Message)
    requires m.len <= |m.buf| && Aligned(m.len)
    ensures Holds(m, m.len, [])
  {
    assert m.buf[m.len..m.len] == [];
  }

  // ----- the nested request -------------------------------------------------

  const IFLA_LINKINFO: nat := 18
  const IFLA_INFO_KIND: nat := 1
  const IFLA_INFO_DATA: nat := 2
  const IFLA_CAN_BITTIMING: nat := 1
  const IFLA_CAN_CTRLMODE: nat := 5
  const IFLA_CAN_RESTART_MS: nat := 6
  const IFLA_CAN_RESTART: nat := 7

  /** The netlink header and `ifinfomsg`, in front of the attributes. */
  const HEADERS: nat := 32
  const REQUEST: nat := HEADERS + 1024

  /** "can" */
  const CAN: seq<byte> := [99, 97, 110]

  type BitTiming = b: seq<byte> | |b| == 32 witness Zeros(32)
  type CtrlMode = b: seq<byte> | |b| == 8 witness Zeros(8)

  datatype ReqInfo = ReqInfo(restart: byte, disableAutorestart: byte, restartMs: nat,
                             ctrlMode: Option<CtrlMode>, bitTiming: Option<BitTiming>)

  function RestartMsOption(info: ReqInfo): seq<Attr> {
    if info.restartMs > 0 || info.disableAutorestart != 0 then [Attr(IFLA_CAN_RESTART_MS, Word(info.restartMs))] else []
  }

  function RestartOption(info: ReqInfo): seq<Attr> {
    if info.restart != 0 then [Attr(IFLA_CAN_RESTART, Word(1))] else []
  }

  function BitTimingOption(info: ReqInfo): seq<Attr> {
    if info.bitTiming.Some? then [Attr(IFLA_CAN_BITTIMING, info.bitTiming.value)] else []
  }

  function CtrlModeOption(info: ReqInfo): seq<Attr> {
    if info.ctrlMode.Some? then [Attr(IFLA_CAN_CTRLMODE, info.ctrlMode.value)] else []
  }

  /** What a request asks for, in the order of the message. */
  function Options(info: ReqInfo): seq<Attr> {
    RestartMsOption(info) + RestartOption(info) + BitTimingOption(info) + CtrlModeOption(info)
  }

  /** Reading the attributes, the link info inside and the data inside that brings
    back the request. */
  predicate Configures(region: seq<byte>, options: seq<Attr>) {
    var top := Parsed(region);
    |top| == 1 && top[0].kind == IFLA_LINKINFO &&
    var inner := Parsed(top[0].payload);
    |inner| == 2 && inner[0] == Attr(IFLA_INFO_KIND, CAN) && inner[1].kind == IFLA_INFO_DATA &&
    Parsed(inner[1].payload) == options
  }

  /** An attribute that spans the rest of its region. */
  lemma ParsedWrapper(region: seq<byte>, kind: nat)
    requires 4 <= |region| < 0x1_0000 && Aligned(|region|) && kind < 0x1_0000
    requires region[..4] == Half(|region|) + Half(kind)
    ensures Parsed(region) == [Attr(kind, region[4..])]
    ensures Encodes(region, [Attr(kind, region[4..])])
  {
    hide Parsed, Half;
    var a := Attr(kind, region[4..]);
    assert region == region[..4] + region[4..];
    assert region[..|region|] == region;
    assert Encode(a) == Half(|region|) + Half(kind) + region[4..];
    EncodesOne(region, a);
    ParsedEncoded(region, [a]);
  }

  lemma NestedRequest(region: seq<byte>, options: seq<Attr>)
    requires 16 <= |region| < 0x1_0000 && Aligned(|region|)
    requires region[..4] == Half(|region|) + Half(IFLA_LINKINFO)
    requires region[4..11] == Encode(Attr(IFLA_INFO_KIND, CAN))
    requires region[12..16] == Half(|region| - 12) + Half(IFLA_INFO_DATA)
    requires Encodes(region[16..], options) && forall a :: a in options ==> Fits(a)
    ensures Configures(region, options)
  {
    hide Parsed, Half, Encode, Encodes;
    ParsedWrapper(region, IFLA_LINKINFO);
    var inner, data := region[4..], region[12..];
    assert data[..4] == region[12..16] && data[4..] == region[16..];
    ParsedWrapper(data, IFLA_INFO_DATA);
    var kind, rest := Attr(IFLA_INFO_KIND, CAN), Attr(IFLA_INFO_DATA, region[16..]);
    assert inner == inner[..8] + data;
    SliceOfSlice(region, 4, |region|, 0, 7);
    assert region[4..|region|] == inner && inner[..8][..7] == inner[0..7];
    EncodesOne(inner[..8], kind);
    EncodesConcat(inner[..8], data, [kind], [rest]);
    assert [kind] + [rest] == [kind, rest];
    ParsedEncoded(inner, [kind, rest]);
    ParsedEncoded(region[16..], options);
  }

  lemma OptionsFit(info: ReqInfo)
    ensures forall a :: a in Options(info) ==> Fits(a)
  {
  }

  /** The data section so far: its attributes, at most `used` bytes, and what stands
    in front of it. */
  ghost predicate Building(m: Message, prefix: seq<byte>, attrs: seq<Attr>, used: nat) {
    Holds(m, |prefix|, attrs) && |m.buf| == REQUEST && m.buf[..|prefix|] == prefix && m.len <= |prefix| + used
  }

  lemma StepBuilding(m: Message, prefix: seq<byte>, attrs: seq<Attr>, used: nat, c: Call)
    requires Building(m, prefix, attrs, used)
    requires |prefix| + used + 36 <= c.limit <= REQUEST && |c.attr.payload| <= 32
    ensures Building(Added(m, c), prefix, attrs + [c.attr], used + 36)
  {
    AddedHolds(m, |prefix|, attrs, c);
    AddedSize(m, c);
    assert Align(4 + |c.attr.payload|) <= 36;
    var n := Added(m, c);
    assert n.buf[..|prefix|] == n.buf[..m.len][..|prefix|] == m.buf[..m.len][..|prefix|] == prefix;
  }

  lemma MoreBuilding(m: Message, prefix: seq<byte>, attrs: seq<Attr>, used: nat, more: nat)
    requires used <= more
    ensures Building(m, prefix, attrs, used) ==> Building(m, prefix, attrs, more)
  {
  }

  /** The optional attributes of the data section. */
  method AddOptions(req: Builder, info: ReqInfo, ghost prefix: seq<byte>)
    requires |prefix| <= 48 && req.buf.Length == REQUEST && Building(req.Value(), prefix, [], 0)
    modifies req`len, req.buf
    ensures Building(req.Value(), prefix, Options(info), 144)
  {
    hide Half, Word, Encode, Building, Added, Align;
    ghost var attrs: seq<Attr> := [];
    var r: int;
    if info.restartMs > 0 || info.disableAutorestart != 0 {
      ghost var a := Attr(IFLA_CAN_RESTART_MS, Word(info.restartMs));
      StepBuilding(req.Value(), prefix, attrs, 0, Call(1024, a));
      attrs := attrs + [a];
      r := req.AddAttr32(1024, IFLA_CAN_RESTART_MS, info.restartMs);
    }
    assert attrs == RestartMsOption(info);
    MoreBuilding(req.Value(), prefix, attrs, 0, 36);
    if info.restart != 0 {
      ghost var a := Attr(IFLA_CAN_RESTART, Word(1));
      StepBuilding(req.Value(), prefix, attrs, 36, Call(1024, a));
      attrs := attrs + [a];
      r := req.AddAttr32(1024, IFLA_CAN_RESTART, 1);
    }
    assert attrs == RestartMsOption(info) + RestartOption(info);
    MoreBuilding(req.Value(), prefix, attrs, 36, 72);
    if info.bitTiming.Some? {
      ghost var a := Attr(IFLA_CAN_BITTIMING, info.bitTiming.value);
      StepBuilding(req.Value(), prefix, attrs, 72, Call(1024, a));
      attrs := attrs + [a];
      r := req.AddAttrL(1024, IFLA_CAN_BITTIMING, info.bitTiming.value);
    }
    assert attrs == RestartMsOption(info) + RestartOption(info) + BitTimingOption(info);
    MoreBuilding(req.Value(), prefix, attrs, 72, 108);
    if info.ctrlMode.Some? {
      ghost var a := Attr(IFLA_CAN_CTRLMODE, info.ctrlMode.value);
      StepBuilding(req.Value(), prefix, attrs, 108, Call(1024, a));
      attrs := attrs + [a];
      r := req.AddAttrL(1024, IFLA_CAN_CTRLMODE, info.ctrlMode.value);
    }
    assert attrs == Options(info);
    MoreBuilding(req.Value(), prefix, attrs, 108, 144);
  }

  /** The three section headers behind the message headers. */
  ghost predicate Sections(buf: seq<byte>) {
    HEADERS + 16 <= |buf| &&
    buf[HEADERS + 2..HEADERS + 4] == Half(IFLA_LINKINFO) &&
    buf[HEADERS + 4..HEADERS + 11] == Encode(Attr(IFLA_INFO_KIND, CAN)) &&
    buf[HEADERS + 14..HEADERS + 16] == Half(IFLA_INFO_DATA)
  }

  lemma SectionsAdded(m: Message)
    requires m.len == HEADERS && |m.buf| == REQUEST
    ensures var m1 := Added(m, Call(REQUEST, Attr(IFLA_LINKINFO, [])));
            var m2 := Added(m1, Call(REQUEST, Attr(IFLA_INFO_KIND, CAN)));
            var m3 := Added(m2, Call(REQUEST, Attr(IFLA_INFO_DATA, [])));
            && |m1.buf| == |m2.buf| == REQUEST && m2.len == HEADERS + 12
            && m3.len == HEADERS + 16 && |m3.buf| == REQUEST && Sections(m3.buf)
  {
    hide Half, Put;
    assert Align(32) == 32 && Align(36) == 36 && Align(44) == 44 && Align(4) == 4 && Align(7) == 8;
    var b1 := Put(m.buf, 32, Encode(Attr(IFLA_LINKINFO, [])));
    var b2 := Put(b1, 36, Encode(Attr(IFLA_INFO_KIND, CAN)));
    var b3 := Put(b2, 44, Encode(Attr(IFLA_INFO_DATA, [])));
    PutIndex(m.buf, 32, Encode(Attr(IFLA_LINKINFO, [])));
    PutIndex(b1, 36, Encode(Attr(IFLA_INFO_KIND, CAN)));
    PutIndex(b2, 44, Encode(Attr(IFLA_INFO_DATA, [])));
    assert b3[34..36] == Half(IFLA_LINKINFO);
    assert b3[36..43] == Encode(Attr(IFLA_INFO_KIND, CAN));
    assert b3[46..48] == Half(IFLA_INFO_DATA);
  }

  lemma PatchedRequest(m: Message, prefix: seq<byte>, info: ReqInfo)
    requires |prefix| == 48 && Sections(prefix) && Building(m, prefix, Options(info), 144)
    ensures 48 <= m.len <= 192 && Align(m.len) == m.len <= |m.buf| == REQUEST
    ensures Configures(Put(Put(m.buf, 44, Half(m.len - 44)), 32, Half(m.len - 32))[..m.len][HEADERS..], Options(info))
  {
    hide Half, Encode, Encodes, Configures, Fits, Parsed, Options, Align;
    OptionsFit(info);
    var len := m.len;
    var region := Put(Put(m.buf, 44, Half(len - 44)), 32, Half(len - 32))[..len][HEADERS..];
    Patched(m.buf, len, Half(len - 44), Half(len - 32));
    EncodesAligned(m.buf[48..len], Options(info));
    assert m.buf[34..36] == prefix[34..36] && m.buf[36..43] == prefix[36..43] && m.buf[46..48] == prefix[46..48];
    NestedRequest(region, Options(info));
  }

  lemma SliceOfSlice<T>(b: seq<T>, i: nat, j: nat, p: nat, q: nat)
    requires i <= j <= |b| && p <= q <= j - i
    ensures b[i..j][p..q] == b[i + p..i + q]
  {
    var s := b[i..j];
    forall k | 0 <= k < q - p
      ensures s[p..q][k] == b[i + p..i + q][k]
    {
      assert s[p..q][k] == s[p + k] == b[i + (p + k)];
    }
  }

  lemma Patched(buf: seq<byte>, len: nat, x: seq<byte>, y: seq<byte>)
    requires |x| == |y| == 2 && 48 <= len <= |buf|
    ensures var region := Put(Put(buf, 44, x), 32, y)[..len][32..];
            && region[..4] == y + buf[34..36] && region[4..11] == buf[36..43]
            && region[12..16] == x + buf[46..48] && region[16..] == buf[48..len]
  {
    hide Put;
    PutIndex(buf, 44, x);
    PutIndex(Put(buf, 44, x), 32, y);
    var b := Put(Put(buf, 44, x), 32, y);
    var region := b[32..len];
    assert b[..len][32..] == region;
    assert b[32..36] == y + buf[34..36];
    assert b[36..43] == buf[36..43];
    assert b[44..48] == x + buf[46..48];
    assert region[16..] == b[48..len] == buf[48..len];
    SliceOfSlice(b, 32, len, 0, 4);
    assert region[..4] == region[0..4];
    SliceOfSlice(b, 32, len, 4, 11);
    SliceOfSlice(b, 32, len, 12, 16);
    assert region[12..16] == x + buf[46..48];
  }

  /** The request part of `do_set_nl_link`: the lengths of the two outer attributes
    are patched in at the end, and the whole is read back as asked. */
  method SetLinkRequest(info: ReqInfo) returns (msg: seq<byte>)
    ensures HEADERS <= |msg| <= HEADERS + 160
    ensures Configures(msg[HEADERS..], Options(info))
  {
    assert Align(32) == 32 && Align(44) == 44;
    hide Half, Encode, Holds, Added, Encodes, Configures, Put, Sections, Align, Aligned, Building, Options;
    var req := new Builder(REQUEST, HEADERS);
    SectionsAdded(req.Value());
    var linkInfo := Align(req.len);
    var r := req.AddAttrL(REQUEST, IFLA_LINKINFO, []);
    r := req.AddAttrL(REQUEST, IFLA_INFO_KIND, CAN);
    var data := Align(req.len);
    r := req.AddAttrL(REQUEST, IFLA_INFO_DATA, []);
    ghost var prefix := req.buf[..req.len];
    StartsBuilding(req.Value());
    AddOptions(req, info, prefix);
    PatchedRequest(req.Value(), prefix, info);
    req.Store(data, Half(Align(req.len) - data));
    req.Store(linkInfo, Half(Align(req.len) - linkInfo));
    msg := req.buf[..req.len];
  }

  lemma StartsBuilding(m: Message)
    requires m.len == HEADERS + 16 && |m.buf| == REQUEST && Sections(m.buf)
    ensures Building(m, m.buf[..m.len], [], 0) && Sections(m.buf[..m.len])
  {
    hide Half, Encode;
    StartsEmpty(m);
    var prefix := m.buf[..m.len];
    assert prefix[34..36] == m.buf[34..36] && prefix[36..43] == m.buf[36..43] && prefix[46..48] == m.buf[46..48];
  }

  // ----- attributes byte by byte ----------------------------------------------

  /** Lengths, types and values of the attributes of a request, low byte first. */
  lemma KnownAttributes()
    ensures Encode(Attr(IFLA_INFO_KIND, CAN)) == [7, 0, 1, 0, 99, 97, 110]
    ensures Encode(Attr(IFLA_CAN_RESTART_MS, Word(1000))) == [8, 0, 6, 0, 0xE8, 0x03, 0, 0]
    ensures Encode(Attr(IFLA_CAN_RESTART, Word(1))) == [8, 0, 7, 0, 1, 0, 0, 0]
    ensures Half(IFLA_LINKINFO) == [18, 0] && Half(IFLA_INFO_DATA) == [2, 0]
    ensures Encode(Attr(IFLA_CAN_BITTIMING, [])) == [4, 0, 1, 0] && Encode(Attr(IFLA_CAN_CTRLMODE, [])) == [4, 0, 5, 0]
    ensures Encode(Attr(0x0102, [])) == [4, 0, 2, 1] && Align(5) == Align(8) == 8
  {
  }
}
