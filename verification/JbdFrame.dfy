/** Request and reply frames of the JBD protocol: `jbd_crc`, `jbd_cmd` and
  `jbd_verify`. */
module JbdFrame {
  import opened Bytes

  const PKT_START: byte := 0xDD
  const PKT_END: byte := 0x77
  const CMD_READ: byte := 0xA5

  function Sum(data: seq<byte>): nat {
    if |data| == 0 then 0 else data[0] as int + Sum(data[1..])
  }

  /** The two's complement, in sixteen bits, of the byte sum. */
  function Checksum(data: seq<byte>): int {
    (0 - Sum(data) as int) % 0x1_0000
  }

  function HighByte(v: int): byte {
    ((v / 256) % 256) as byte
  }

  function LowByte(v: int): byte {
    (v % 256) as byte
  }

  /** `_getshort`, taken as an unsigned value. */
  function Short(high: byte, low: byte): int {
    high as int * 256 + low as int
  }

  /** The bytes under the checksum: third byte, length and payload. */
  function Covered(third: byte, payload: seq<byte>): seq<byte> {
    [third, LowByte(|payload|)] + payload
  }

  /** The frame layout shared by both directions: a request has the action and the
    register as second and third byte, a reply the register and the status. */
  function Frame(second: byte, third: byte, payload: seq<byte>): seq<byte> {
    var crc := Checksum(Covered(third, payload));
    [PKT_START, second] + Covered(third, payload) + [HighByte(crc), LowByte(crc), PKT_END]
  }

  /** The frames whose length byte tells the truth. */
  ghost predicate IsFrame(packet: seq<byte>, second: byte) {
    exists third: byte, payload: seq<byte> :: |payload| <= 255 && packet == Frame(second, third, payload)
  }

  // ----- sums --------------------------------------------------------------

  lemma {:induction false} SumConcat(a: seq<byte>, b: seq<byte>)
    ensures Sum(a + b) == Sum(a) + Sum(b)
  {
    if a == [] {
      assert a + b == b;
    } else {
      assert (a + b)[1..] == a[1..] + b;
      SumConcat(a[1..], b);
    }
  }

  lemma {:induction false} SumBound(a: seq<byte>)
    ensures Sum(a) <= 255 * |a|
  {
    if a != [] {
      SumBound(a[1..]);
    }
  }

  lemma SumSnoc(a: seq<byte>, b: byte)
    ensures Sum(a + [b]) == Sum(a) + b as int
  {
    SumConcat(a, [b]);
    assert [b][1..] == [];
  }

  /** At most 257 bytes are covered, so the sum fits sixteen bits and the checksum
    determines it. */
  lemma ChecksumNeverWraps(a: seq<byte>, b: seq<byte>)
    requires |a| <= 257 && |b| <= 257
    ensures Sum(a) <= 0xFFFF
    ensures Checksum(a) == Checksum(b) <==> Sum(a) == Sum(b)
  {
    hide Checksum, Sum;
    SmallChecksum(a);
    SmallChecksum(b);
  }

  lemma SmallChecksum(a: seq<byte>)
    requires |a| <= 257
    ensures Sum(a) <= 0xFFFF && Checksum(a) == if Sum(a) == 0 then 0 else 0x1_0000 - Sum(a)
  {
    SumBound(a);
  }

  lemma ChecksumOfNothing()
    ensures Checksum([]) == 0
  {
  }

  lemma ChecksumSnoc(a: seq<byte>, b: byte)
    ensures Checksum(a + [b]) == (Checksum(a) - b as int) % 0x1_0000
  {
    SumSnoc(a, b);
    var s: int := Sum(a);
    assert (0 - s) % 0x1_0000 == 0 - s - ((0 - s) / 0x1_0000) * 0x1_0000;
  }

  /** `jbd_crc`: a 16-bit accumulator that the bytes are subtracted from. */
  method Crc(data: array<byte>, from: nat, len: nat) returns (crc: int)
    requires from + len <= data.Length
    ensures crc == Checksum(data[from..from + len])
  {
    hide Checksum;
    crc := 0;
    assert data[from..from] == [];
    ChecksumOfNothing();
    for i := 0 to len
      invariant crc == Checksum(data[from..from + i])
    {
      assert data[from..from + i + 1] == data[from..from + i] + [data[from + i]];
      ChecksumSnoc(data[from..from + i], data[from + i]);
      crc := (crc - data[from + i] as int) % 0x1_0000;
    }
  }

  // ----- building ----------------------------------------------------------

  /** The length guard of `jbd_cmd`, for a packet buffer of `size` and a payload of `n`. */
  predicate GuardPasses(size: nat, n: nat) {
    4 + n <= size
  }

  /** The guard passes, and the frame does not fit: the closing bytes go past the end. */
  predicate Overruns(size: nat, n: nat) {
    GuardPasses(size, n) && |Frame(0, 0, Zeros(n))| > size
  }

  /** It happens for three payload lengths: the guard leaves out the three closing
    bytes. */
  lemma OverrunsExactly(size: nat, n: nat)
    ensures Overruns(size, n) <==> size - 7 < n <= size - 4
  {
    hide Checksum;
    assert |Frame(0, 0, Zeros(n))| == 7 + n;
  }

  /** With the 256 bytes of `jbd_rw`, a payload of 250 passes and goes past the end. */
  lemma OverrunAt250()
    ensures GuardPasses(256, 250) && Overruns(256, 250)
  {
    OverrunsExactly(256, 250);
  }

  function Max(a: nat, b: nat): nat {
    if a < b then b else a
  }

  /** `jbd_cmd`, where `pkt` is the memory from the packet buffer on, of which `size`
    bytes are the buffer's. What is written is the frame and zeros up to `size`, or, when
    the guard refuses, the four header bytes and zeros; the rest of the memory stays.
    The frame goes past `size` exactly for the lengths of `Overruns`. */
  method Cmd(pkt: array<byte>, size: nat, action: byte, reg: byte, data: array<byte>, dataLen: nat) returns (len: int)
    requires pkt != data && 4 <= pkt.Length && size <= pkt.Length
    requires action == CMD_READ || dataLen <= data.Length
    requires var n := if action == CMD_READ then 0 else dataLen;
             GuardPasses(size, n) ==> 7 + n <= pkt.Length
    modifies pkt
    ensures var n := if action == CMD_READ then 0 else dataLen;
            if !GuardPasses(size, n) then
              len == -1 && pkt[..] == Padded([PKT_START, action, reg, LowByte(n)], size, old(pkt[..]))
            else
              && len == 7 + n && (len > size <==> Overruns(size, n))
              && pkt[..] == Padded(Frame(action, reg, data[..n]), size, old(pkt[..]))
  {
    hide Checksum, HighByte, LowByte, Overruns, Padded;
    var n := if action == CMD_READ then 0 else dataLen;
    ghost var before := pkt[..];
    OverrunsExactly(size, n);
    Opening(pkt, size, action, reg, LowByte(n));
    if 4 + n > size {
      return -1;
    }
    ghost var payload := data[..n];
    ghost var cleared := pkt[..];
    MemCpy(pkt, 4, data, 0, n);
    Layout(cleared, pkt[..], action, reg, payload);
    var crc := Crc(pkt, 2, n + 2);
    ghost var filled := pkt[..];
    Closing(pkt, 4 + n, crc);
    PaddedFrame(before, cleared, filled, pkt[..], size, action, reg, payload);
    len := 7 + n;
  }

  /** The memory after `front` was written over a buffer of `size` cleared bytes. */
  function Padded(front: seq<byte>, size: nat, before: seq<byte>): (r: seq<byte>)
    requires |front| <= |before| && size <= |before|
    ensures |r| == |before| && r[..|front|] == front
  {
    front + Zeros(Max(size, |front|) - |front|) + before[Max(size, |front|)..]
  }

  lemma Layout(cleared: seq<byte>, pkt: seq<byte>, action: byte, reg: byte, payload: seq<byte>)
    requires 4 + |payload| <= |cleared| == |pkt|
    requires cleared[..4] == [PKT_START, action, reg, LowByte(|payload|)]
    requires pkt == cleared[..4] + payload + cleared[4 + |payload|..]
    ensures pkt[2..4 + |payload|] == Covered(reg, payload)
    ensures pkt[..4 + |payload|] == [PKT_START, action] + Covered(reg, payload)
  {
  }

  lemma PaddedFrame(before: seq<byte>, cleared: seq<byte>, filled: seq<byte>, pkt: seq<byte>, size: nat,
                    action: byte, reg: byte, payload: seq<byte>)
    requires var n := |payload|; 4 + n <= size <= |before| && 7 + n <= |before|
    requires cleared == Padded([PKT_START, action, reg, LowByte(|payload|)], size, before)
    requires filled == cleared[..4] + payload + cleared[4 + |payload|..]
    requires filled[..4 + |payload|] == [PKT_START, action] + Covered(reg, payload)
    requires var crc := Checksum(Covered(reg, payload));
             pkt == filled[..4 + |payload|] + [HighByte(crc), LowByte(crc), PKT_END] + filled[7 + |payload|..]
    ensures pkt == Padded(Frame(action, reg, payload), size, before)
  {
    hide Checksum, HighByte, LowByte, Covered;
    var n := |payload|;
    assert filled[7 + n..] == cleared[7 + n..];
    TailOfPadded([PKT_START, action, reg, LowByte(n)], size, before, 7 + n);
  }

  lemma TailOfPadded(front: seq<byte>, size: nat, before: seq<byte>, k: nat)
    requires |front| <= k <= |before| && |front| <= size <= |before|
    ensures Padded(front, size, before)[k..] == Zeros(Max(size, k) - k) + before[Max(size, k)..]
  {
  }

  lemma OpeningText(before: seq<byte>, cleared: seq<byte>, front: seq<byte>, size: nat)
    requires |front| == 4 <= |before| && size <= |before| && cleared == Zeros(size) + before[size..]
    ensures front + cleared[4..] == Padded(front, size, before)
  {
    assert cleared[4..] == Zeros(Max(size, 4) - 4) + before[Max(size, 4)..];
  }

  /** A cleared packet with its four header bytes. */
  method Opening(pkt: array<byte>, size: nat, action: byte, reg: byte, len: byte)
    requires 4 <= pkt.Length && size <= pkt.Length
    modifies pkt
    ensures pkt[..] == Padded([PKT_START, action, reg, len], size, old(pkt[..]))
  {
    ghost var before := pkt[..];
    MemSet(pkt, size);
    ghost var cleared := pkt[..];
    pkt[0], pkt[1], pkt[2], pkt[3] := PKT_START, action, reg, len;
    hide Padded;
    assert pkt[..] == [PKT_START, action, reg, len] + cleared[4..];
    OpeningText(before, cleared, [PKT_START, action, reg, len], size);
  }

  /** The checksum, high byte first, and the end mark. */
  method Closing(pkt: array<byte>, at: nat, crc: int)
    requires at + 3 <= pkt.Length
    modifies pkt
    ensures pkt[..] == old(pkt[..at]) + [HighByte(crc), LowByte(crc), PKT_END] + old(pkt[at + 3..])
  {
    hide HighByte, LowByte;
    pkt[at], pkt[at + 1] := HighByte(crc), LowByte(crc);
    pkt[at + 2] := PKT_END;
  }

  // ----- verifying ---------------------------------------------------------

  /** The checks of `jbd_verify`, in its order. */
  predicate Checks(packet: seq<byte>, second: byte) {
    |packet| >= 7 &&
    packet[0] == PKT_START &&
    packet[1] == second &&
    packet[3] as int == |packet| - 7 &&
    Checksum(packet[2..|packet| - 3]) == Short(packet[|packet| - 3], packet[|packet| - 2]) &&
    packet[|packet| - 1] == PKT_END
  }

  lemma ShortBytes(v: int)
    requires 0 <= v < 0x1_0000
    ensures Short(HighByte(v), LowByte(v)) == v
  {
  }

  lemma BytesOfShort(h: byte, l: byte)
    ensures HighByte(Short(h, l)) == h && LowByte(Short(h, l)) == l
  {
  }

  lemma FrameChecks(second: byte, third: byte, payload: seq<byte>)
    requires |payload| <= 255
    ensures Checks(Frame(second, third, payload), second)
  {
    var packet := Frame(second, third, payload);
    assert packet[2..|packet| - 3] == Covered(third, payload);
    ShortBytes(Checksum(Covered(third, payload)));
  }

  lemma CheckedIsFrame(packet: seq<byte>, second: byte)
    requires Checks(packet, second)
    ensures packet == Frame(second, packet[2], packet[4..|packet| - 3])
  {
    hide Checksum, HighByte, LowByte, Short;
    var n := |packet|;
    CoveredPart(packet, n - 7);
    BytesOfShort(packet[n - 3], packet[n - 2]);
    assert packet[n - 3..] == [packet[n - 3], packet[n - 2], packet[n - 1]];
    Parts(packet, 2, n - 3);
  }

  lemma Parts(packet: seq<byte>, i: nat, j: nat)
    requires i <= j <= |packet|
    ensures packet == packet[..i] + packet[i..j] + packet[j..]
  {
  }

  lemma CoveredPart(packet: seq<byte>, k: nat)
    requires |packet| == k + 7 && packet[3] as int == k
    ensures packet[2..4 + k] == Covered(packet[2], packet[4..4 + k])
  {
  }

  lemma ChecksAreFrames(packet: seq<byte>, second: byte)
    ensures Checks(packet, second) <==> IsFrame(packet, second)
  {
    hide Checksum, Frame;
    if Checks(packet, second) {
      CheckedIsFrame(packet, second);
      assert |packet[4..|packet| - 3]| <= 255;
    }
    if IsFrame(packet, second) {
      var third: byte, payload: seq<byte> :| |payload| <= 255 && packet == Frame(second, third, payload);
      FrameChecks(second, third, payload);
    }
  }

  /** `jbd_verify` accepts exactly the frames of the layout for that register. */
  method Verify(buf: array<byte>, len: int, reg: byte) returns (r: int)
    requires len <= buf.Length
    ensures r == 0 || r == 1
    ensures r == 0 <==> 0 <= len && IsFrame(buf[..len], reg)
  {
    hide IsFrame, Checksum;
    if 0 <= len {
      ChecksAreFrames(buf[..len], reg);
    }
    if len < 7 {
      return 1;
    }
    var i := 0;
    if buf[i] != PKT_START {
      return 1;
    }
    i := i + 1;
    if buf[i] != reg {
      return 1;
    }
    i := i + 2;
    var dataLength := buf[i] as int;
    i := i + 1;
    if dataLength != len - 7 {
      return 1;
    }
    var myCrc := Crc(buf, 2, dataLength + 2);
    i := i + dataLength;
    assert buf[..len][2..len - 3] == buf[2..2 + (dataLength + 2)];
    if myCrc != Short(buf[i], buf[i + 1]) {
      return 1;
    }
    i := i + 2;
    if buf[i] != PKT_END {
      return 1;
    }
    return 0;
  }

  // ----- what verification is worth ----------------------------------------

  /** A frame is read in one way only. */
  lemma FrameInjective(second: byte, third: byte, payload: seq<byte>, third': byte, payload': seq<byte>)
    requires |payload| <= 255 && |payload'| <= 255
    requires Frame(second, third, payload) == Frame(second, third', payload')
    ensures third == third' && payload == payload'
  {
    hide Checksum;
    var f, f' := Frame(second, third, payload), Frame(second, third', payload');
    assert f[2] == third && f'[2] == third';
    assert f[4..|f| - 3] == payload;
    assert f'[4..|f'| - 3] == payload';
  }

  /** A request built for any payload is accepted, under its action byte, exactly
    when the length byte could hold the payload's length. */
  lemma RequestVerifies(action: byte, reg: byte, data: seq<byte>)
    ensures IsFrame(Frame(action, reg, data), action) <==> |data| <= 255
  {
    hide Checksum;
    if IsFrame(Frame(action, reg, data), action) {
      var third: byte, payload: seq<byte> :|
        |payload| <= 255 && Frame(action, reg, data) == Frame(action, third, payload);
      assert |Frame(action, reg, data)| == |data| + 7;
      assert |Frame(action, third, payload)| == |payload| + 7;
    }
  }

  /** Two packets that differ only in status and payload. */
  predicate SameEnvelope(p: seq<byte>, q: seq<byte>) {
    |p| == |q| && |p| >= 7 &&
    p[0] == q[0] && p[1] == q[1] && p[3] == q[3] &&
    p[|p| - 3..] == q[|q| - 3..]
  }

  /** Corruption of status and payload goes unnoticed exactly when it keeps their
    sum. */
  lemma CorruptionUnnoticed(p: seq<byte>, q: seq<byte>, reg: byte)
    requires IsFrame(p, reg) && SameEnvelope(p, q)
    ensures IsFrame(q, reg) <==> Sum(q[2..|q| - 3]) == Sum(p[2..|p| - 3])
  {
    hide IsFrame, Checksum, Sum;
    ChecksAreFrames(p, reg);
    ChecksAreFrames(q, reg);
    assert p[|p| - 3] == p[|p| - 3..][0] && q[|q| - 3] == q[|q| - 3..][0];
    assert p[|p| - 2] == p[|p| - 3..][1] && q[|q| - 2] == q[|q| - 3..][1];
    assert p[|p| - 1] == p[|p| - 3..][2] && q[|q| - 1] == q[|q| - 3..][2];
    ChecksumNeverWraps(p[2..|p| - 3], q[2..|q| - 3]);
  }

  lemma {:induction false} SumMonotone(a: seq<byte>, b: seq<byte>)
    requires |a| == |b| && forall k :: 0 <= k < |a| ==> a[k] <= b[k]
    ensures Sum(a) <= Sum(b)
    ensures a != b ==> Sum(a) < Sum(b)
  {
    if a != [] {
      SumMonotone(a[1..], b[1..]);
      assert a[0] == b[0] && a[1..] == b[1..] ==> a == [b[0]] + b[1..] == b;
    }
  }

  /** Noise that only raises bytes, or only lowers them, is always noticed. */
  lemma OneSidedCorruptionRefused(p: seq<byte>, q: seq<byte>, reg: byte)
    requires IsFrame(p, reg) && SameEnvelope(p, q) && p != q
    requires (forall k :: 0 <= k < |p| ==> p[k] <= q[k]) || (forall k :: 0 <= k < |p| ==> q[k] <= p[k])
    ensures !IsFrame(q, reg)
  {
    hide IsFrame, Sum;
    CorruptionUnnoticed(p, q, reg);
    var c, d := p[2..|p| - 3], q[2..|q| - 3];
    if c == d {
      CoveredDecides(p, q);
    }
    if forall k :: 0 <= k < |p| ==> p[k] <= q[k] {
      SumMonotone(c, d);
    } else {
      SumMonotone(d, c);
    }
  }

  lemma CoveredDecides(p: seq<byte>, q: seq<byte>)
    requires SameEnvelope(p, q) && p[2..|p| - 3] == q[2..|q| - 3]
    ensures p == q
  {
    assert p[..2] == q[..2];
    assert p == p[..2] + p[2..|p| - 3] + p[|p| - 3..];
    assert q == q[..2] + q[2..|q| - 3] + q[|q| - 3..];
  }

  /** One corrupted byte anywhere in a frame is always noticed. */
  lemma SingleByteRefused(p: seq<byte>, reg: byte, i: nat, b: byte)
    requires IsFrame(p, reg) && i < |p| && p[i] != b
    ensures !IsFrame(p[i := b], reg)
  {
    hide IsFrame, Checksum;
    var q := p[i := b];
    assert q != p by { assert q[i] != p[i]; }
    ChecksAreFrames(p, reg);
    ChecksAreFrames(q, reg);
    if i == 2 || 4 <= i < |p| - 3 {
      assert p[|p| - 3..] == q[|q| - 3..];
      OneSidedCorruptionRefused(p, q, reg);
    } else if |p| - 3 <= i < |p| - 1 {
      assert p[2..|p| - 3] == q[2..|q| - 3];
    }
  }

  /** The checksum does not see the order of the bytes: two payload bytes may change
    places. */
  lemma SwapUnnoticed(p: seq<byte>, reg: byte, i: nat, j: nat)
    requires IsFrame(p, reg) && 4 <= i < j < |p| - 3
    ensures IsFrame(p[i := p[j]][j := p[i]], reg)
  {
    hide IsFrame, Sum;
    var q := p[i := p[j]][j := p[i]];
    ChecksAreFrames(p, reg);
    assert p[|p| - 3..] == q[|q| - 3..];
    CorruptionUnnoticed(p, q, reg);
    var c, d := p[2..|p| - 3], q[2..|q| - 3];
    assert c == c[..i - 2] + [p[i]] + c[i - 1..j - 2] + [p[j]] + c[j - 1..];
    assert d == c[..i - 2] + [p[j]] + c[i - 1..j - 2] + [p[i]] + c[j - 1..];
    SumOfFive(c[..i - 2], p[i], c[i - 1..j - 2], p[j], c[j - 1..]);
    SumOfFive(c[..i - 2], p[j], c[i - 1..j - 2], p[i], c[j - 1..]);
  }

  lemma SumOfFive(a: seq<byte>, x: byte, b: seq<byte>, y: byte, c: seq<byte>)
    ensures Sum(a + [x] + b + [y] + c) == Sum(a) + x as int + Sum(b) + y as int + Sum(c)
  {
    SumSnoc(a, x);
    SumConcat(a + [x], b);
    SumSnoc(a + [x] + b, y);
    SumConcat(a + [x] + b + [y], c);
  }

  // ----- frames byte by byte --------------------------------------------------

  /** The read request for register 3, a request that writes two bytes, and a reply with
    one. */
  lemma KnownFrames()
    ensures Frame(CMD_READ, 0x03, []) == [0xDD, 0xA5, 0x03, 0x00, 0xFF, 0xFD, 0x77]
    ensures Frame(0x5A, 0x00, [0x56, 0x78]) == [0xDD, 0x5A, 0x00, 0x02, 0x56, 0x78, 0xFF, 0x30, 0x77]
    ensures Frame(0x04, 0x00, [0x0E]) == [0xDD, 0x04, 0x00, 0x01, 0x0E, 0xFF, 0xF1, 0x77]
  {
    SumTwo(0x03, 0x00);
    SumTwo(0x00, 0x02);
    SumTwo(0x00, 0x01);
    SumTwo(0x56, 0x78);
    SumConcat([0x00, 0x02], [0x56, 0x78]);
    SumSnoc([0x00, 0x01], 0x0E);
    assert [0x03, 0x00] + [] == [0x03, 0x00];
  }

  lemma SumTwo(a: byte, b: byte)
    ensures Sum([a, b]) == a as int + b as int
  {
    SumSnoc([a], b);
    SumSnoc([], a);
    assert [] + [a] == [a] && [a] + [b] == [a, b];
  }
}
