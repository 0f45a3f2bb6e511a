/** The reflected CRC-16 of the CAN transport (`jbd_can_crc`). */
module CanCrc {
  /** CRC_16_POLYNOMIALS */
  const POLYNOMIAL: bv16 := 0xA001

  predicate Odd(crc: bv16) {
    crc & 1 == 1
  }

  function Shift(crc: bv16): bv16 {
    crc >> 1
  }

  function Xor(x: bv16, y: bv16): bv16 {
    x ^ y
  }

  /** One shift of the register. */
  function Step(crc: bv16): bv16 {
    if Odd(crc) then Xor(Shift(crc), POLYNOMIAL) else Shift(crc)
  }

  function Steps(crc: bv16, n: nat): bv16
    decreases n
  {
    if n == 0 then crc else Steps(Step(crc), n - 1)
  }

  function Mix(crc: bv16, b: bv8): bv16 {
    crc ^ (b as bv16)
  }

  /** The register after one more message byte. */
  function Absorb(crc: bv16, b: bv8): bv16 {
    Steps(Mix(crc, b), 8)
  }

  function CrcFrom(crc: bv16, msg: seq<bv8>): bv16
    decreases |msg|
  {
    if msg == [] then crc else CrcFrom(Absorb(crc, msg[0]), msg[1..])
  }

  function Crc(msg: seq<bv8>): bv16 {
    CrcFrom(0xFFFF, msg)
  }

  /** `jbd_can_crc`, for a message of any length. */
  method CanCrc(msg: seq<bv8>) returns (crc: bv16)
    ensures crc == Crc(msg)
  {
    crc := 0xFFFF;
    var i := 0;
    while i < |msg|
      invariant 0 <= i <= |msg|
      invariant CrcFrom(crc, msg[i..]) == Crc(msg)
    {
      hide Step;
      ghost var before := crc;
      assert msg[i..][0] == msg[i] && msg[i..][1..] == msg[i + 1..];
      crc := Mix(crc, msg[i]);
      var k := 0;
      while k < 8
        invariant 0 <= k <= 8
        invariant Steps(crc, 8 - k) == Absorb(before, msg[i])
      {
        crc := Step(crc);
        k := k + 1;
      }
      i := i + 1;
    }
  }

  // ----- one step is a linear bijection ------------------------------------

  lemma StepInjective(x: bv16, y: bv16)
    requires Step(x) == Step(y)
    ensures x == y
  {
  }

  lemma OddXor(x: bv16, y: bv16)
    ensures Odd(Xor(x, y)) <==> Odd(x) != Odd(y)
  {
  }

  lemma ShiftXor(x: bv16, y: bv16)
    ensures Shift(Xor(x, y)) == Xor(Shift(x), Shift(y))
  {
  }

  lemma RegroupXor(x: bv16, y: bv16, z: bv16)
    ensures Xor(Xor(x, y), z) == Xor(Xor(x, z), y)
    ensures Xor(Xor(x, y), z) == Xor(x, Xor(y, z))
    ensures Xor(Xor(x, z), Xor(y, z)) == Xor(x, y)
  {
  }

  lemma StepLinear(x: bv16, y: bv16)
    ensures Step(Xor(x, y)) == Xor(Step(x), Step(y))
  {
    hide Odd, Shift, Xor;
    OddXor(x, y);
    ShiftXor(x, y);
    RegroupXor(Shift(x), Shift(y), POLYNOMIAL);
  }

  lemma {:induction false} StepsInjective(x: bv16, y: bv16, n: nat)
    requires Steps(x, n) == Steps(y, n)
    ensures x == y
    decreases n
  {
    hide Step;
    if n > 0 {
      StepsInjective(Step(x), Step(y), n - 1);
      StepInjective(x, y);
    }
  }

  lemma {:induction false} StepsLinear(x: bv16, y: bv16, n: nat)
    ensures Steps(Xor(x, y), n) == Xor(Steps(x, n), Steps(y, n))
    decreases n
  {
    hide Step, Xor;
    if n > 0 {
      StepLinear(x, y);
      StepsLinear(Step(x), Step(y), n - 1);
    }
  }

  /** A step that leaves the top bit clear was a plain shift. */
  lemma StepUndone(x: bv16)
    requires Step(x) < 0x8000
    ensures x == Step(x) << 1
  {
  }

  /** Eight steps push a non-zero byte beyond the low half of the register. */
  lemma StepsSpread(x: bv16)
    requires x <= 0xFF && Steps(x, 8) <= 0xFF
    ensures x == 0
  {
    hide Step;
    var s1 := Step(x);
    var s2 := Step(s1);
    var s3 := Step(s2);
    var s4 := Step(s3);
    var s5 := Step(s4);
    var s6 := Step(s5);
    var s7 := Step(s6);
    var s8 := Step(s7);
    assert Steps(s2, 6) == Steps(s4, 4);
    assert Steps(s4, 4) == Steps(s6, 2);
    assert s8 <= 0xFF;
    StepUndone(s7);
    StepUndone(s6);
    StepUndone(s5);
    StepUndone(s4);
    StepUndone(s3);
    StepUndone(s2);
    StepUndone(s1);
    StepUndone(x);
  }

  // ----- what the register distinguishes -----------------------------------

  lemma AbsorbInjective(x: bv16, y: bv16, b: bv8)
    requires Absorb(x, b) == Absorb(y, b)
    ensures x == y
  {
    hide Steps, Mix;
    StepsInjective(Mix(x, b), Mix(y, b), 8);
    MixCancels(x, y, b);
  }

  lemma MixCancels(x: bv16, y: bv16, b: bv8)
    requires Mix(x, b) == Mix(y, b)
    ensures x == y
  {
  }

  lemma {:induction false} CrcFromInjective(x: bv16, y: bv16, msg: seq<bv8>)
    requires CrcFrom(x, msg) == CrcFrom(y, msg)
    ensures x == y
    decreases |msg|
  {
    hide Absorb;
    if msg != [] {
      CrcFromInjective(Absorb(x, msg[0]), Absorb(y, msg[0]), msg[1..]);
      AbsorbInjective(x, y, msg[0]);
    }
  }

  /** From the same register, two bytes are recovered from the register behind
    them. */
  lemma TwoBytesInjective(crc: bv16, a: bv8, b: bv8, a': bv8, b': bv8)
    requires Absorb(Absorb(crc, a), b) == Absorb(Absorb(crc, a'), b')
    ensures a == a' && b == b'
  {
    hide Steps, Mix, Xor;
    var x, y := Mix(crc, a), Mix(crc, a');
    var p, q := Steps(x, 8), Steps(y, 8);
    StepsInjective(Mix(p, b), Mix(q, b'), 8);
    StepsLinear(x, y, 8);
    LowDifference(p, q, b, b');
    SameStart(crc, a, a');
    StepsSpread(Xor(x, y));
    SameBytes(crc, a, a');
    assert x == y && p == q;
    SameStart(p, b, b');
    SelfXor(Mix(p, b));
    SameBytes(p, b, b');
  }

  lemma SelfXor(x: bv16)
    ensures Xor(x, x) == 0
  {
  }

  lemma LowDifference(p: bv16, q: bv16, b: bv8, b': bv8)
    requires Mix(p, b) == Mix(q, b')
    ensures Xor(p, q) <= 0xFF
  {
  }

  lemma SameStart(crc: bv16, a: bv8, a': bv8)
    ensures Xor(Mix(crc, a), Mix(crc, a')) <= 0xFF
  {
  }

  lemma SameBytes(crc: bv16, a: bv8, a': bv8)
    requires Xor(Mix(crc, a), Mix(crc, a')) == 0
    ensures a == a'
  {
  }

  lemma {:induction false} CrcFromConcat(crc: bv16, m: seq<bv8>, n: seq<bv8>)
    ensures CrcFrom(crc, m + n) == CrcFrom(CrcFrom(crc, m), n)
    decreases |m|
  {
    hide Absorb;
    if m == [] {
      assert m + n == n;
    } else {
      assert (m + n)[1..] == m[1..] + n;
      CrcFromConcat(Absorb(crc, m[0]), m[1..], n);
    }
  }

  /** Messages of one length that differ only inside two neighbouring bytes never
    have the same CRC. */
  lemma AdjacentBytesDetected(m: seq<bv8>, m': seq<bv8>, i: nat)
    requires |m| == |m'| && i + 1 < |m|
    requires forall k :: 0 <= k < |m| && k != i && k != i + 1 ==> m[k] == m'[k]
    requires m != m'
    ensures Crc(m) != Crc(m')
  {
    var head, tail := m[..i], m[i + 2..];
    assert m == head + ([m[i], m[i + 1]] + tail);
    assert m' == head + ([m'[i], m'[i + 1]] + tail);
    if Crc(m) == Crc(m') {
      var crc := CrcFrom(0xFFFF, head);
      CrcFromConcat(0xFFFF, head, [m[i], m[i + 1]] + tail);
      CrcFromConcat(0xFFFF, head, [m'[i], m'[i + 1]] + tail);
      CrcOfTwo(crc, m[i], m[i + 1], tail);
      CrcOfTwo(crc, m'[i], m'[i + 1], tail);
      CrcFromInjective(Absorb(Absorb(crc, m[i]), m[i + 1]), Absorb(Absorb(crc, m'[i]), m'[i + 1]), tail);
      TwoBytesInjective(crc, m[i], m[i + 1], m'[i], m'[i + 1]);
      assert false;
    }
  }

  lemma CrcOfTwo(crc: bv16, a: bv8, b: bv8, tail: seq<bv8>)
    ensures CrcFrom(crc, [a, b] + tail) == CrcFrom(Absorb(Absorb(crc, a), b), tail)
  {
    hide Absorb;
    assert ([a, b] + tail)[1..] == [b] + tail && ([b] + tail)[1..] == tail;
  }

  /** In particular any single corrupted byte is detected. */
  lemma SingleByteDetected(m: seq<bv8>, i: nat, b: bv8)
    requires i < |m| && b != m[i]
    ensures Crc(m[i := b]) != Crc(m)
  {
    if |m| == 1 {
      hide Absorb;
      assert m == [m[0]] && m[i := b] == [b];
      AbsorbDistinguishes(0xFFFF, m[0], b);
      OneByte(m[0]);
      OneByte(b);
    } else {
      assert m[i := b][i] != m[i];
      AdjacentBytesDetected(m, m[i := b], if i + 1 < |m| then i else i - 1);
    }
  }

  lemma OneByte(b: bv8)
    ensures Crc([b]) == Absorb(0xFFFF, b)
  {
    hide Absorb;
    assert [b][0] == b && [b][1..] == [];
    assert CrcFrom(Absorb(0xFFFF, b), []) == Absorb(0xFFFF, b);
    assert CrcFrom(0xFFFF, [b]) == CrcFrom(Absorb(0xFFFF, [b][0]), [b][1..]);
  }

  lemma AbsorbDistinguishes(crc: bv16, a: bv8, b: bv8)
    requires a != b
    ensures Absorb(crc, a) != Absorb(crc, b)
  {
    hide Steps, Mix, Xor;
    if Absorb(crc, a) == Absorb(crc, b) {
      StepsInjective(Mix(crc, a), Mix(crc, b), 8);
      SelfXor(Mix(crc, a));
      SameBytes(crc, a, b);
    }
  }
}
