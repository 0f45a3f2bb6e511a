/** The bounded request loops over an unreliable transport: `jbd_rw` and
  `jbd_can_get`. */
module JbdSession {
  import opened Bytes
  import opened JbdFrame
  import CanBurst
  import CanCrc
  import opened Transport
  import opened Wrappers

  // ----- rounds -------------------------------------------------------------

  /** How one round of a request loop ends it, if it does. */
  datatype Round<+T> = Broken | Good(value: T) | Again

  /** The number of rounds that ask for another, from `k` on, of at most `limit`. */
  ghost function Wasted<T(!new)>(round: nat -> Round<T>, k: nat, limit: nat): (n: nat)
    ensures n <= limit
    ensures forall i :: k <= i < k + n ==> round(i).Again?
    ensures n < limit ==> !round(k + n).Again?
    decreases limit
  {
    if limit == 0 || !round(k).Again? then 0 else 1 + Wasted(round, k + 1, limit - 1)
  }

  lemma {:induction false} WastedIs<T(!new)>(round: nat -> Round<T>, k: nat, limit: nat, n: nat)
    requires n <= limit && forall i :: k <= i < k + n ==> round(i).Again?
    requires n == limit || !round(k + n).Again?
    ensures Wasted(round, k, limit) == n
    decreases limit
  {
    if n > 0 {
      assert round(k).Again?;
      WastedIs(round, k + 1, limit - 1, n - 1);
    }
  }

  function Repeat<T>(x: T, n: nat): (s: seq<T>)
    ensures |s| == n && forall i :: 0 <= i < n ==> s[i] == x
  {
    seq(n, i => x)
  }

  lemma RepeatMore<T>(s: seq<T>, x: T, n: nat)
    ensures s + Repeat(x, n) + [x] == s + Repeat(x, n + 1)
  {
    assert Repeat(x, n) + [x] == Repeat(x, n + 1);
  }

  // ----- the serial protocol ------------------------------------------------

  const ROUNDS: nat := 5
  const BUFFER: nat := 256

  /** A request is what is handed to the transport: a packet, or nothing when its length
    is negative. */
  type Serial = Link<Option<seq<byte>>, byte>

  /** What the answer to the k-th read means to a request for `reg`. A failed write
    is not looked at. */
  ghost function SerialRound(answer: Response<byte>, reg: byte): Round<seq<byte>> {
    match answer
    case Failure => Broken
    case Received(p) => if IsFrame(p, reg) then Good(Payload(p)) else Again
  }

  function Payload(packet: seq<byte>): seq<byte> {
    if |packet| < 7 then [] else packet[4..|packet| - 3]
  }

  lemma PayloadOfFrame(reg: byte, status: byte, payload: seq<byte>)
    requires |payload| <= 255
    ensures Payload(Frame(reg, status, payload)) == payload
  {
  }

  /** The device answered with a frame of the layout around this payload. */
  ghost predicate Framed(answer: Response<byte>, reg: byte, payload: seq<byte>) {
    exists status: byte :: |payload| <= 255 && answer == Received(Frame(reg, status, payload))
  }

  /** A round is good for exactly the payload that was framed. */
  lemma GoodIsFramed(answer: Response<byte>, reg: byte, payload: seq<byte>)
    ensures SerialRound(answer, reg) == Good(payload) <==> Framed(answer, reg, payload)
  {
    hide Frame, Payload;
    if SerialRound(answer, reg) == Good(payload) {
      var status: byte, framed: seq<byte> :| |framed| <= 255 && answer.data == Frame(reg, status, framed);
      PayloadOfFrame(reg, status, framed);
    }
    if Framed(answer, reg, payload) {
      var status: byte :| |payload| <= 255 && answer == Received(Frame(reg, status, payload));
      PayloadOfFrame(reg, status, payload);
    }
  }

  lemma FramePayload(packet: seq<byte>, reg: byte)
    requires IsFrame(packet, reg)
    ensures |packet| >= 7 && packet[3] as int == |packet| - 7
    ensures Payload(packet) == packet[4..4 + packet[3] as int]
  {
    hide IsFrame, Checksum;
    ChecksAreFrames(packet, reg);
  }

  ghost function SerialRounds(link: Serial, from: nat, reg: byte): nat -> Round<seq<byte>> {
    (i: nat) => SerialRound(link.Answer(from + i, BUFFER), reg)
  }

  /** Some round verifies, and no read fails before it. */
  ghost predicate Verifies<T(!new)>(round: nat -> Round<T>, limit: nat) {
    exists i :: 0 <= i < limit && round(i).Good? && forall j :: 0 <= j < i ==> !round(j).Broken?
  }

  /** The loop stops at a good round exactly when there is one before any failure,
    and then at the first. */
  lemma StopsAtFirstGood<T(!new)>(round: nat -> Round<T>, limit: nat)
    ensures var w := Wasted(round, 0, limit);
            Verifies(round, limit) <==> w < limit && round(w).Good?
    ensures forall i :: 0 <= i < Wasted(round, 0, limit) ==> !round(i).Good?
  {
    hide Wasted;
    var w := Wasted(round, 0, limit);
    if Verifies(round, limit) {
      var i :| 0 <= i < limit && round(i).Good? && forall j :: 0 <= j < i ==> !round(j).Broken?;
      assert w <= i;
    }
  }

  /** The caller's memory after a round that brought nothing, and after delivery; `len` is
    the length the caller gave. */
  function Cleared(memory: seq<byte>, len: nat): seq<byte>
    requires len <= |memory|
  {
    Padded([], len, memory)
  }

  function Delivered(memory: seq<byte>, len: nat, payload: seq<byte>): seq<byte>
    requires |payload| <= |memory| && len <= |memory|
  {
    Padded(payload, len, memory)
  }

  lemma ClearedTwice(memory: seq<byte>, len: nat)
    requires len <= |memory|
    ensures |Cleared(memory, len)| == |memory|
    ensures Cleared(memory, len) == Zeros(len) + memory[len..]
    ensures Cleared(Cleared(memory, len), len) == Cleared(memory, len)
  {
  }

  lemma DeliveredAfterClearing(memory: seq<byte>, len: nat, payload: seq<byte>)
    requires |payload| <= |memory| && len <= |memory|
    ensures |Cleared(memory, len)| == |memory|
    ensures Cleared(memory, len)[..0] + payload + Cleared(memory, len)[0 + |payload|..] == Delivered(memory, len, payload)
  {
    TailOfPadded([], len, memory, |payload|);
  }

  /** The longest payload that fits the reply buffer. */
  const LONGEST: nat := BUFFER - 7

  /** An accepted payload can be longer than the length the caller gave exactly when that is
    less than the longest payload. */
  lemma LongPayloads(reg: byte, dataLen: nat)
    ensures (exists answer, payload ::
               FitsBuffer(answer) && SerialRound(answer, reg) == Good(payload) && |payload| > dataLen) <==>
            dataLen < 249
  {
    hide Checksum;
    if dataLen < LONGEST {
      var payload := Zeros(LONGEST);
      var answer := Received(Frame(reg, 0, payload));
      GoodIsFramed(answer, reg, payload);
      assert Framed(answer, reg, payload);
      assert FitsBuffer(answer) && SerialRound(answer, reg) == Good(payload) && |payload| > dataLen;
    }
    forall answer, payload | FitsBuffer(answer) && SerialRound(answer, reg) == Good(payload)
      ensures |payload| <= LONGEST
    {
      FramePayload(answer.data, reg);
    }
  }

  /** What a read into the reply buffer can bring. */
  predicate FitsBuffer(answer: Response<byte>) {
    answer.Received? ==> |answer.data| <= BUFFER
  }

  function Request(cmd: seq<byte>, len: int): Option<seq<byte>>
    requires len <= |cmd|
  {
    if len < 0 then None else Some(cmd[..len])
  }

  /** What `jbd_rw` sends: the frame, or nothing when it is refused for its length. */
  function FrameToSend(action: byte, reg: byte, payload: seq<byte>): Option<seq<byte>> {
    if GuardPasses(BUFFER, |payload|) then Some(Frame(action, reg, payload)) else None
  }

  /** One round of `jbd_rw`. */
  method RwRound(link: Serial, cmd: array<byte>, cmdLen: int, buf: array<byte>, data: array<byte>, dataLen: nat, reg: byte)
    returns (bytes: int, bad: int)
    requires cmdLen <= cmd.Length && buf.Length == BUFFER && dataLen <= data.Length
    requires cmd != buf && cmd != data && buf != data
    modifies link, buf, data
    ensures link.sent == old(link.sent) + [Request(cmd[..], cmdLen)] && link.answers == old(link.answers) + 1
    ensures data[..] == Cleared(old(data[..]), dataLen)
    ensures match SerialRound(link.Answer(old(link.answers), BUFFER), reg)
            case Broken => bytes < 0
            case Good(payload) =>
              0 <= bytes && bad == 0 && 4 + buf[3] as int <= BUFFER && buf[4..4 + buf[3] as int] == payload
            case Again => 0 <= bytes && bad != 0
  {
    hide IsFrame, Payload;
    var n := link.Write(Request(cmd[..], cmdLen));
    ClearedTwice(data[..], dataLen);
    MemSet(data, dataLen);
    bytes := link.Read(buf);
    if bytes < 0 {
      return bytes, 1;
    }
    bad := Verify(buf, bytes, reg);
    assert buf[..bytes] == link.Answer(old(link.answers), BUFFER).data;
    if bad == 0 {
      FramePayload(buf[..bytes], reg);
      var len := buf[3] as int;
      assert buf[..bytes][4..4 + len] == buf[4..4 + len];
    }
  }

  lemma SerialRoundAt(link: Serial, from: nat, reg: byte, i: nat)
    ensures SerialRounds(link, from, reg)(i) == SerialRound(link.Answer(from + i, BUFFER), reg)
  {
  }

  lemma CommandSent(cmd: seq<byte>, len: int, action: byte, reg: byte, payload: seq<byte>)
    requires |cmd| == BUFFER && len <= |cmd|
    requires if GuardPasses(BUFFER, |payload|) then len == 7 + |payload| && Frame(action, reg, payload) <= cmd else len == -1
    ensures Request(cmd, len) == FrameToSend(action, reg, payload)
  {
    hide Checksum;
    if GuardPasses(BUFFER, |payload|) {
      var frame := Frame(action, reg, payload);
      assert |frame| == len && cmd[..|frame|] == frame;
    }
  }

  /** The command buffer, filled. */
  method BuildRequest(cmd: array<byte>, action: byte, reg: byte, data: array<byte>, dataLen: nat) returns (cmdLen: int)
    requires cmd != data && cmd.Length == BUFFER && dataLen <= data.Length
    requires action == CMD_READ || !Overruns(BUFFER, dataLen)
    modifies cmd
    ensures cmdLen <= cmd.Length
    ensures Request(cmd[..], cmdLen) == FrameToSend(action, reg, if action == CMD_READ then [] else data[..dataLen])
  {
    OverrunsExactly(BUFFER, if action == CMD_READ then 0 else dataLen);
    hide Frame, Overruns, Request, FrameToSend;
    ghost var payload := if action == CMD_READ then [] else data[..dataLen];
    cmdLen := Cmd(cmd, BUFFER, action, reg, data, dataLen);
    assert payload == data[..if action == CMD_READ then 0 else dataLen];
    CommandSent(cmd[..], cmdLen, action, reg, payload);
  }

  /** The payload of the good reply, copied over the cleared data. */
  method Deliver(buf: array<byte>, data: array<byte>, dataLen: nat, r: nat, ghost before: seq<byte>)
    requires buf != data && buf.Length == BUFFER && 4 + r <= BUFFER
    requires r <= data.Length && dataLen <= data.Length == |before|
    requires data[..] == Cleared(before, dataLen)
    modifies data
    ensures data[..] == Delivered(before, dataLen, buf[4..4 + r])
  {
    hide Cleared, Delivered;
    DeliveredAfterClearing(before, dataLen, buf[4..4 + r]);
    MemCpy(data, 0, buf, 4, r);
  }

  /** `jbd_rw`: at most five rounds, each sending the same frame, although the
    caller's data is cleared in every one. A length is returned exactly when some
    round verifies before any read fails. A request that is too long is not sent, but
    answers are awaited all the same; one that `jbd_cmd` writes past its buffer must not
    be made. `data` is the memory from the caller's buffer on, of which `dataLen` bytes are
    the buffer's: the payload is copied whole, and goes past the buffer exactly when the
    length returned is greater than `dataLen`. */
  method Rw(link: Serial, action: byte, reg: byte, data: array<byte>, dataLen: nat) returns (r: int)
    requires dataLen <= data.Length
    requires action == CMD_READ || !Overruns(BUFFER, dataLen)
    requires var round := SerialRounds(link, link.answers, reg);
             var w := Wasted(round, 0, ROUNDS);
             w < ROUNDS && round(w).Good? ==> |round(w).value| <= data.Length
    modifies link, data
    ensures var round := SerialRounds(link, old(link.answers), reg);
            var w := Wasted(round, 0, 5);
            var used := if w < 5 then w + 1 else 5;
            var frame := FrameToSend(action, reg, if action == CMD_READ then [] else old(data[..dataLen]));
            && link.answers == old(link.answers) + used
            && link.sent == old(link.sent) + Repeat(frame, used)
            && (r >= 0 <==> Verifies(round, 5))
            && if r >= 0 then
                 && w < 5 && round(w).Good? && r == |round(w).value| <= data.Length
                 && Framed(link.Answer(old(link.answers) + w, BUFFER), reg, round(w).value)
                 && data[..] == Delivered(old(data[..]), dataLen, round(w).value)
               else
                 r == -1 && data[..] == Cleared(old(data[..]), dataLen)
  {
    hide Wasted, Frame, Verifies, SerialRounds, SerialRound, Cleared, Delivered, Framed, FrameToSend, Request, Overruns;
    ghost var from, before, sent := link.answers, data[..], link.sent;
    ghost var round := SerialRounds(link, from, reg);
    ghost var sendable := if action == CMD_READ then [] else data[..dataLen];
    ghost var frame := FrameToSend(action, reg, sendable);
    StopsAtFirstGood(round, ROUNDS);
    ClearedTwice(before, dataLen);
    var cmd, buf := new byte[BUFFER], new byte[BUFFER];
    var cmdLen := BuildRequest(cmd, action, reg, data, dataLen);
    var retries := ROUNDS;
    ghost var k := 0;
    while true
      invariant 0 <= k <= ROUNDS && retries == ROUNDS - k
      invariant Request(cmd[..], cmdLen) == frame
      invariant link.answers == from + k && link.sent == sent + Repeat(frame, k)
      invariant forall i :: 0 <= i < k ==> round(i).Again?
      invariant data[..] == (if k == 0 then before else Cleared(before, dataLen))
      decreases retries
    {
      if retries == 0 {
        WastedIs(round, 0, ROUNDS, ROUNDS);
        return -1;
      }
      retries := retries - 1;
      SerialRoundAt(link, from, reg, k);
      RepeatMore(sent, frame, k);
      var bytes, bad := RwRound(link, cmd, cmdLen, buf, data, dataLen, reg);
      assert data[..] == Cleared(before, dataLen);
      if bytes < 0 {
        WastedIs(round, 0, ROUNDS, k);
        return -1;
      }
      if bad == 0 {
        WastedIs(round, 0, ROUNDS, k);
        break;
      }
      k := k + 1;
    }
    r := buf[3] as int;
    ghost var payload := round(k).value;
    assert buf[4..4 + r] == payload && |payload| == r;
    SerialRoundAt(link, from, reg, k);
    GoodIsFramed(link.Answer(from + k, BUFFER), reg, payload);
    Deliver(buf, data, dataLen, r, before);
  }

  // ----- the CAN protocol ---------------------------------------------------

  const CAN_ROUNDS: nat := 4

  type Can = Link<int, bv8>

  /** The caller's buffer after a read: what came, then zeros. */
  function Filled(answer: Response<bv8>, size: nat): (s: seq<bv8>)
    requires answer.Received? ==> |answer.data| <= size
    ensures |s| == size
  {
    match answer
    case Failure => seq(size, i => 0)
    case Received(d) => d + seq(size - |d|, i => 0)
  }

  /** The checksum a reply carries. */
  function Field(reply: seq<bv8>): bv16
    requires |reply| >= 8
  {
    ((reply[6] as bv16) << 8) | (reply[7] as bv16)
  }

  /** A reply may leave its checksum out, as zero. */
  predicate Acceptable(reply: seq<bv8>)
    requires |reply| >= 8
  {
    Field(reply) == 0 || Field(reply) == CanCrc.Crc(reply[..6])
  }

  function CanRound(link: Can, write: nat, read: nat, size: nat, check: bool): Round<seq<bv8>>
    requires check ==> size >= 8
  {
    if !link.accepts(write) || link.Answer(read, size).Failure? then Broken
    else if !check || Acceptable(Filled(link.Answer(read, size), size)) then
      Good(Filled(link.Answer(read, size), size))
    else Again
  }

  function CanRounds(link: Can, write: nat, read: nat, size: nat, check: bool): nat -> Round<seq<bv8>>
    requires check ==> size >= 8
  {
    (i: nat) => CanRound(link, write + i, read + i, size, check)
  }

  method ClearCan(data: array<bv8>)
    modifies data
    ensures data[..] == Filled(Failure, data.Length)
  {
    for i := 0 to data.Length
      invariant data[..i] == seq(i, k => 0)
    {
      data[i] := 0;
    }
    assert data[..] == data[..data.Length];
  }

  /** One round of `jbd_can_get`. */
  method CanAttempt(link: Can, id: int, data: array<bv8>, check: bool) returns (n: int, accepted: bool)
    requires check ==> data.Length >= 8
    modifies link, data
    ensures link.sent == old(link.sent) + [id]
    ensures link.answers == old(link.answers) + (if link.accepts(old(|link.sent|)) then 1 else 0)
    ensures data[..] == if link.accepts(old(|link.sent|))
                        then Filled(link.Answer(old(link.answers), data.Length), data.Length) else old(data[..])
    ensures match CanRound(link, old(|link.sent|), old(link.answers), data.Length, check)
            case Broken => n < 0
            case Good(reply) => 0 <= n && accepted && data[..] == reply
            case Again => 0 <= n && !accepted
  {
    hide Field, CanCrc.Crc;
    accepted := false;
    n := link.Write(id);
    if n < 0 {
      return;
    }
    ClearCan(data);
    n := link.Read(data);
    assert data[..] == Filled(link.Answer(old(link.answers), data.Length), data.Length);
    if n < 0 {
      return;
    }
    if !check {
      return n, true;
    }
    var crc := Field(data[..]);
    var myCrc := CanCrc.CanCrc(data[..6]);
    assert data[..6] == data[..][..6];
    accepted := crc == 0 || crc == myCrc;
  }

  /** `jbd_can_get`: at most four rounds. It succeeds exactly when some round brings
    an acceptable reply before any write or read fails. */
  method CanGet(link: Can, id: int, data: array<bv8>, check: bool) returns (r: int)
    requires check ==> data.Length >= 8
    modifies link, data
    ensures var round := CanRounds(link, old(|link.sent|), old(link.answers), data.Length, check);
            var w := Wasted(round, 0, 4);
            var used := if w < 4 then w + 1 else 4;
            && r in {0, 1}
            && (r == 0 <==> Verifies(round, 4))
            && (r == 0 ==> w < 4 && round(w).Good? && data[..] == round(w).value)
            && link.sent == old(link.sent) + Repeat(id, used)
            && link.answers == old(link.answers) +
                 (if w < 4 && !link.accepts(old(|link.sent|) + w) then w else used)
    ensures data[..] == if link.answers == old(link.answers) then old(data[..])
                        else Filled(link.Answer(link.answers - 1, data.Length), data.Length)
  {
    hide Wasted, Verifies, CanRounds, CanRound, Filled;
    ghost var write, read, sent := |link.sent|, link.answers, link.sent;
    ghost var round := CanRounds(link, write, read, data.Length, check);
    StopsAtFirstGood(round, CAN_ROUNDS);
    var retries := 3;
    ghost var k := 0;
    while true
      invariant 0 <= k < CAN_ROUNDS && retries == 3 - k
      invariant link.answers == read + k && link.sent == sent + Repeat(id, k)
      invariant forall i :: 0 <= i < k ==> round(i).Again?
      invariant data[..] == if k == 0 then old(data[..]) else Filled(link.Answer(read + k - 1, data.Length), data.Length)
      decreases retries
    {
      CanRoundAt(link, write, read, data.Length, check, k);
      RepeatMore(sent, id, k);
      var n, accepted := CanAttempt(link, id, data, check);
      if n < 0 {
        WastedIs(round, 0, CAN_ROUNDS, k);
        return 1;
      }
      if accepted {
        WastedIs(round, 0, CAN_ROUNDS, k);
        break;
      }
      if retries == 0 {
        retries := -1;
        WastedIs(round, 0, CAN_ROUNDS, CAN_ROUNDS);
        break;
      }
      retries := retries - 1;
      k := k + 1;
    }
    return if retries < 0 then 1 else 0;
  }

  lemma CanRoundAt(link: Can, write: nat, read: nat, size: nat, check: bool, i: nat)
    requires check ==> size >= 8
    ensures CanRounds(link, write, read, size, check)(i) == CanRound(link, write + i, read + i, size, check)
    ensures !link.accepts(write + i) ==> CanRound(link, write + i, read + i, size, check).Broken?
  {
  }

  lemma FieldBytes(a: seq<bv8>, b: seq<bv8>)
    requires |a| >= 8 && |b| >= 8 && a[6] == b[6] && a[7] == b[7]
    ensures Field(a) == Field(b)
  {
  }

  /** A delivered reply. */
  predicate Delivers(link: Can, write: nat, read: nat, size: nat) {
    link.accepts(write) && link.Answer(read, size).Received?
  }

  /** A reply that stops before its checksum field is taken whatever it says: the cleared
    buffer supplies a field of zero. */
  lemma ShortReplyTaken(link: Can, write: nat, read: nat, size: nat)
    requires size >= 8 && Delivers(link, write, read, size) && |link.Answer(read, size).data| <= 6
    ensures CanRound(link, write, read, size, true).Good?
  {
    hide CanCrc.Crc;
    var reply := Filled(link.Answer(read, size), size);
    assert reply[6] == 0 && reply[7] == 0;
    ZeroField(reply);
  }

  lemma ZeroField(reply: seq<bv8>)
    requires |reply| >= 8
    ensures Field(reply) == 0 <==> reply[6] == 0 && reply[7] == 0
  {
  }

  /** The empty reply is taken, and it does not carry its checksum. */
  lemma EmptyReplyTaken(link: Can, write: nat, read: nat, size: nat)
    requires size >= 8 && link.accepts(write) && link.Answer(read, size) == Received([])
    ensures CanRound(link, write, read, size, true).Good?
    ensures var reply := CanRound(link, write, read, size, true).value; Field(reply) != CanCrc.Crc(reply[..6])
  {
    hide CanCrc.CrcFrom;
    ShortReplyTaken(link, write, read, size);
    var reply := Filled(link.Answer(read, size), size);
    assert forall k :: 0 <= k < 6 ==> reply[..6][k] == 0;
    CanBurst.ZerosLeaveCrc(reply[..6]);
    ZeroField(reply);
  }

  /** A reply that passed the check carries its checksum exactly when its field is not
    zero, or the checksum of its bytes is. */
  lemma GoodReplyChecked(link: Can, write: nat, read: nat, size: nat)
    requires size >= 8 && CanRound(link, write, read, size, true).Good?
    ensures var reply := CanRound(link, write, read, size, true).value;
            Field(reply) == CanCrc.Crc(reply[..6]) <==> Field(reply) != 0 || CanCrc.Crc(reply[..6]) == 0
  {
    hide Field, CanCrc.Crc, Filled;
  }

  /** A reply that carries its checksum, damaged within two neighbouring bytes of the
    six it covers, is never taken. */
  lemma DamagedReplyRefused(reply: seq<bv8>, damaged: seq<bv8>, i: nat)
    requires |reply| == |damaged| >= 8 && i <= 4
    requires Field(reply) == CanCrc.Crc(reply[..6]) && Field(reply) != 0
    requires forall k :: 0 <= k < |reply| && k != i && k != i + 1 ==> damaged[k] == reply[k]
    requires damaged != reply
    ensures !Acceptable(damaged)
  {
    hide Field, CanCrc.Crc;
    FieldBytes(reply, damaged);
    var k :| 0 <= k < |reply| && damaged[k] != reply[k];
    assert reply[..6][k] != damaged[..6][k];
    CanCrc.AdjacentBytesDetected(reply[..6], damaged[..6], i);
  }

  /** One damaged byte anywhere in a reply that carries its checksum is noticed, unless it
    leaves a checksum field of zero. */
  lemma DamagedByteRefused(reply: seq<bv8>, i: nat, b: bv8)
    requires |reply| >= 8 && i < 8 && b != reply[i]
    requires Field(reply) == CanCrc.Crc(reply[..6])
    ensures Acceptable(reply[i := b]) <==> Field(reply[i := b]) == 0
  {
    hide Field, CanCrc.Crc;
    var damaged := reply[i := b];
    if i < 6 {
      FieldBytes(reply, damaged);
      assert damaged[..6] == reply[..6][i := b];
      CanCrc.SingleByteDetected(reply[..6], i, b);
    } else {
      assert damaged[..6] == reply[..6];
      FieldDiffers(reply, damaged);
    }
  }

  lemma FieldDiffers(a: seq<bv8>, b: seq<bv8>)
    requires |a| >= 8 && |b| >= 8 && (a[6] != b[6] || a[7] != b[7])
    ensures Field(a) != Field(b)
  {
  }

  function High(b: bv8): bv16 {
    (b as bv16) << 8
  }

  function Low(b: bv8): bv16 {
    b as bv16
  }

  lemma HighXor(a: bv8, b: bv8)
    ensures High(a ^ b) == CanCrc.Xor(High(a), High(b))
  {
  }

  lemma LowXor(a: bv8, b: bv8)
    ensures Low(a ^ b) == CanCrc.Xor(Low(a), Low(b))
  {
  }

  lemma FieldParts(reply: seq<bv8>)
    requires |reply| >= 8
    ensures Field(reply) == CanCrc.Xor(High(reply[6]), Low(reply[7]))
  {
  }

  lemma Regroup4(p: bv16, q: bv16, r: bv16, t: bv16)
    ensures CanCrc.Xor(CanCrc.Xor(p, r), CanCrc.Xor(q, t)) == CanCrc.Xor(CanCrc.Xor(p, q), CanCrc.Xor(r, t))
  {
    hide CanCrc.Xor;
    CanCrc.RegroupXor(CanCrc.Xor(p, r), q, t);
    CanCrc.RegroupXor(p, r, q);
    CanCrc.RegroupXor(CanCrc.Xor(p, q), r, t);
  }

  lemma FieldXor(a: seq<bv8>, d: seq<bv8>)
    requires |a| == |d| >= 8
    ensures Field(CanBurst.XorBytes(a, d)) == CanCrc.Xor(Field(a), Field(d))
  {
    hide Field, High, Low, CanCrc.Xor;
    var x := CanBurst.XorBytes(a, d);
    FieldParts(a);
    FieldParts(d);
    FieldParts(x);
    assert High(x[6]) == CanCrc.Xor(High(a[6]), High(d[6])) by { HighXor(a[6], d[6]); }
    assert Low(x[7]) == CanCrc.Xor(Low(a[7]), Low(d[7])) by { LowXor(a[7], d[7]); }
    Regroup4(High(a[6]), Low(a[7]), High(d[6]), Low(d[7]));
  }

  /** Any damage `d` at all, given by the bits it flips, to a reply that carries its
    checksum: it is taken exactly when the damage leaves a field of zero, or when what it
    does to the field is what it does to the checksum. */
  lemma DamageTakenExactly(reply: seq<bv8>, d: seq<bv8>)
    requires |reply| == |d| >= 8 && Field(reply) == CanCrc.Crc(reply[..6])
    ensures var damaged := CanBurst.XorBytes(reply, d);
            Acceptable(damaged) <==> Field(damaged) == 0 || Field(d) == CanCrc.CrcFrom(0, d[..6])
  {
    hide Field, CanCrc.CrcFrom, CanCrc.Crc, CanCrc.Xor;
    var damaged := CanBurst.XorBytes(reply, d);
    assert damaged[..6] == CanBurst.XorBytes(reply[..6], d[..6]);
    CanBurst.CrcOfDamaged(reply[..6], d[..6]);
    FieldXor(reply, d);
    if CanCrc.Xor(Field(reply), Field(d)) == CanCrc.Xor(Field(reply), CanCrc.CrcFrom(0, d[..6])) {
      CanBurst.XorCancels(Field(reply), Field(d), CanCrc.CrcFrom(0, d[..6]));
    }
  }

  /** Damage that reaches from the last covered byte into the checksum field, which holds
    the high byte first, can go unnoticed. */
  lemma SpanningDamageTaken(reply: seq<bv8>)
    requires |reply| >= 8 && Field(reply) == CanCrc.Crc(reply[..6])
    ensures Acceptable(reply[5 := reply[5] ^ 0x0C][6 := reply[6] ^ 0x05])
  {
    hide Field, CanCrc.Crc, CanCrc.Xor;
    var damaged := reply[5 := reply[5] ^ 0x0C][6 := reply[6] ^ 0x05];
    var head := reply[..5];
    assert reply[..6] == head + [reply[5]] && damaged[..6] == head + [reply[5] ^ 0x0C];
    CanBurst.LastByteDamaged(head, reply[5]);
    FieldDamaged(reply, damaged);
  }

  lemma FieldDamaged(a: seq<bv8>, b: seq<bv8>)
    requires |a| >= 8 && |b| >= 8 && b[6] == a[6] ^ 0x05 && b[7] == a[7]
    ensures Field(b) == CanCrc.Xor(Field(a), 0x0500)
  {
  }

  /** The field is read high byte first. */
  lemma KnownField(front: seq<bv8>)
    requires |front| == 6
    ensures Field(front + [0x12, 0x34]) == 0x1234
  {
  }
}
