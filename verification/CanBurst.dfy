/** What the CAN checksum notices, bit by bit: the bytes of a message go through the
  register lowest bit first, and any damage within sixteen bits in a row shows. */
module CanBurst {
  import opened CanCrc

  function BitOf(b: bool): bv16 {
    if b then 1 else 0
  }

  function Double(x: bv16): bv16 {
    x << 1
  }

  /** The register after a run of single bits. */
  function CrcBits(crc: bv16, bits: seq<bool>): bv16
    decreases |bits|
  {
    if bits == [] then crc else CrcBits(Step(Xor(crc, BitOf(bits[0]))), bits[1..])
  }

  /** The number whose bits these are, lowest first. */
  function Value(bits: seq<bool>): bv16 {
    if bits == [] then 0 else Xor(BitOf(bits[0]), Double(Value(bits[1..])))
  }

  function Shifted(v: bv16, n: nat): bv16
    decreases n
  {
    if n == 0 then v else Shifted(Shift(v), n - 1)
  }

  /** The `n` lowest bits. */
  function BitsOf(v: bv16, n: nat): (r: seq<bool>)
    ensures |r| == n
    decreases n
  {
    if n == 0 then [] else [Odd(v)] + BitsOf(Shift(v), n - 1)
  }

  function MessageBits(msg: seq<bv8>): (r: seq<bool>)
    ensures |r| == 8 * |msg|
  {
    if msg == [] then [] else BitsOf(msg[0] as bv16, 8) + MessageBits(msg[1..])
  }

  // ----- at most sixteen bits ----------------------------------------------

  lemma PutBit(b: bool, v: bv16)
    requires v < 0x8000
    ensures Shift(Xor(BitOf(b), Double(v))) == v && (Odd(Xor(BitOf(b), Double(v))) <==> b)
  {
  }

  lemma TakeBit(v: bv16)
    ensures Shift(v) < 0x8000 && Xor(BitOf(Odd(v)), Double(Shift(v))) == v
  {
  }

  lemma {:induction false} ShiftedSwap(v: bv16, n: nat)
    ensures Shifted(Shift(v), n) == Shift(Shifted(v, n))
    decreases n
  {
    hide Shift;
    if n > 0 {
      ShiftedSwap(Shift(v), n - 1);
    }
  }

  lemma ShiftZero()
    ensures Shift(0) == 0
  {
  }

  lemma {:induction false} ShiftedMore(v: bv16, n: nat, m: nat)
    requires Shifted(v, n) == 0 && n <= m
    ensures Shifted(v, m) == 0
    decreases m - n
  {
    hide Shift;
    if n < m {
      ShiftedSwap(v, n);
      ShiftZero();
      ShiftedMore(v, n + 1, m);
    }
  }

  lemma ShiftedFifteen(v: bv16)
    requires Shifted(v, 15) == 0
    ensures v < 0x8000
  {
    var a := Shift(Shift(Shift(v)));
    var b := Shift(Shift(Shift(a)));
    var c := Shift(Shift(Shift(b)));
    var d := Shift(Shift(Shift(c)));
    assert Shifted(v, 15) == Shifted(a, 12) by { ShiftedThree(v, 12); }
    assert Shifted(a, 12) == Shifted(b, 9) by { ShiftedThree(a, 9); }
    assert Shifted(b, 9) == Shifted(c, 6) by { ShiftedThree(b, 6); }
    assert Shifted(c, 6) == Shifted(d, 3) by { ShiftedThree(c, 3); }
    assert Shifted(d, 3) == Shift(Shift(Shift(d))) by { ShiftedThree(d, 0); }
    TopBit(v);
  }

  lemma ShiftedThree(v: bv16, n: nat)
    ensures Shifted(v, n + 3) == Shifted(Shift(Shift(Shift(v))), n)
  {
    hide Shift;
    assert Shifted(v, n + 3) == Shifted(Shift(v), n + 2);
    assert Shifted(Shift(v), n + 2) == Shifted(Shift(Shift(v)), n + 1);
  }

  lemma TopBit(v: bv16)
    requires (v >> 15) == 0
    ensures v < 0x8000
  {
  }

  lemma {:induction false} ValueFits(bits: seq<bool>)
    requires |bits| <= 16
    ensures Shifted(Value(bits), |bits|) == 0
    ensures |bits| <= 15 ==> Value(bits) < 0x8000
  {
    hide Shift, Xor, Double, BitOf, Odd;
    if bits != [] {
      ValueFits(bits[1..]);
      PutBit(bits[0], Value(bits[1..]));
    }
    if |bits| <= 15 {
      ShiftedMore(Value(bits), |bits|, 15);
      ShiftedFifteen(Value(bits));
    }
  }

  lemma {:induction false} ValueInjective(a: seq<bool>, b: seq<bool>)
    requires |a| == |b| <= 16 && Value(a) == Value(b)
    ensures a == b
  {
    hide Shift, Xor, Double, BitOf, Odd;
    if a != [] {
      ValueFits(a[1..]);
      ValueFits(b[1..]);
      PutBit(a[0], Value(a[1..]));
      PutBit(b[0], Value(b[1..]));
      ValueInjective(a[1..], b[1..]);
      assert a == [a[0]] + a[1..] && b == [b[0]] + b[1..];
    }
  }

  lemma StepDouble(x: bv16, y: bv16)
    requires y < 0x8000
    ensures Step(Xor(x, Double(y))) == Xor(Step(x), y)
  {
    StepLinear(x, Double(y));
    DoubleStep(y);
  }

  lemma DoubleStep(y: bv16)
    requires y < 0x8000
    ensures Step(Double(y)) == y
  {
  }

  /** Sixteen bits go through the register as one number mixed in at the start. */
  lemma {:induction false} WindowState(crc: bv16, bits: seq<bool>)
    requires |bits| <= 16
    ensures CrcBits(crc, bits) == Steps(Xor(crc, Value(bits)), |bits|)
    decreases |bits|
  {
    hide Step, Xor, Double, BitOf;
    if bits == [] {
      XorZero(crc);
    } else {
      var b, v := BitOf(bits[0]), Value(bits[1..]);
      ValueFits(bits[1..]);
      WindowState(Step(Xor(crc, b)), bits[1..]);
      StepDouble(Xor(crc, b), v);
      RegroupXor(crc, b, Double(v));
    }
  }

  lemma XorZero(x: bv16)
    ensures Xor(x, 0) == x && Xor(0, x) == x
  {
  }

  lemma XorCancels(x: bv16, a: bv16, b: bv16)
    requires Xor(x, a) == Xor(x, b)
    ensures a == b
  {
  }

  // ----- bytes are bits ----------------------------------------------------

  lemma {:induction false} ValueOfBits(v: bv16, n: nat)
    requires Shifted(v, n) == 0
    ensures Value(BitsOf(v, n)) == v
    decreases n
  {
    hide Shift, Xor, Double, BitOf, Odd;
    if n > 0 {
      ValueOfBits(Shift(v), n - 1);
      TakeBit(v);
      assert BitsOf(v, n)[1..] == BitsOf(Shift(v), n - 1);
    }
  }

  lemma ByteFits(b: bv8)
    ensures Shifted(b as bv16, 8) == 0
  {
    var v := b as bv16;
    assert Shifted(v, 8) == Shifted(Shift(Shift(Shift(v))), 5) by { ShiftedThree(v, 5); }
    var w := Shift(Shift(Shift(v)));
    assert Shifted(w, 5) == Shifted(Shift(Shift(Shift(w))), 2) by { ShiftedThree(w, 2); }
  }

  lemma MixIsXor(crc: bv16, b: bv8)
    ensures Mix(crc, b) == Xor(crc, b as bv16)
  {
  }

  lemma AbsorbIsBits(crc: bv16, b: bv8)
    ensures Absorb(crc, b) == CrcBits(crc, BitsOf(b as bv16, 8))
  {
    hide Steps, CrcBits, BitsOf, Value, Shifted, Mix, Xor;
    ByteFits(b);
    ValueOfBits(b as bv16, 8);
    WindowState(crc, BitsOf(b as bv16, 8));
    MixIsXor(crc, b);
  }

  lemma {:induction false} CrcBitsConcat(crc: bv16, a: seq<bool>, b: seq<bool>)
    ensures CrcBits(crc, a + b) == CrcBits(CrcBits(crc, a), b)
    decreases |a|
  {
    hide Step, Xor;
    if a == [] {
      assert a + b == b;
    } else {
      assert (a + b)[1..] == a[1..] + b;
      CrcBitsConcat(Step(Xor(crc, BitOf(a[0]))), a[1..], b);
    }
  }

  lemma {:induction false} CrcIsBits(crc: bv16, msg: seq<bv8>)
    ensures CrcFrom(crc, msg) == CrcBits(crc, MessageBits(msg))
    decreases |msg|
  {
    hide Absorb, BitsOf, Step, Xor;
    if msg != [] {
      AbsorbIsBits(crc, msg[0]);
      CrcBitsConcat(crc, BitsOf(msg[0] as bv16, 8), MessageBits(msg[1..]));
      CrcIsBits(Absorb(crc, msg[0]), msg[1..]);
    }
  }

  lemma {:induction false} MessageBitsInjective(m: seq<bv8>, m': seq<bv8>)
    requires |m| == |m'| && MessageBits(m) == MessageBits(m')
    ensures m == m'
  {
    hide BitsOf, Shifted, Value;
    if m != [] {
      var a, a' := BitsOf(m[0] as bv16, 8), BitsOf(m'[0] as bv16, 8);
      assert MessageBits(m)[..8] == a && MessageBits(m')[..8] == a';
      assert MessageBits(m)[8..] == MessageBits(m[1..]) && MessageBits(m')[8..] == MessageBits(m'[1..]);
      MessageBitsInjective(m[1..], m'[1..]);
      ByteFits(m[0]);
      ByteFits(m'[0]);
      ValueOfBits(m[0] as bv16, 8);
      ValueOfBits(m'[0] as bv16, 8);
      WideInjective(m[0], m'[0]);
      assert m == [m[0]] + m[1..] && m' == [m'[0]] + m'[1..];
    }
  }

  lemma WideInjective(a: bv8, b: bv8)
    requires a as bv16 == b as bv16
    ensures a == b
  {
  }

  // ----- bursts ------------------------------------------------------------

  lemma {:induction false} CrcBitsInjective(x: bv16, y: bv16, bits: seq<bool>)
    requires CrcBits(x, bits) == CrcBits(y, bits)
    ensures x == y
    decreases |bits|
  {
    hide Step, Xor, BitOf;
    if bits != [] {
      var b := BitOf(bits[0]);
      CrcBitsInjective(Step(Xor(x, b)), Step(Xor(y, b)), bits[1..]);
      StepInjective(Xor(x, b), Xor(y, b));
      XorCommutes(x, b);
      XorCommutes(y, b);
      XorCancels(b, x, y);
    }
  }

  lemma XorCommutes(x: bv16, y: bv16)
    ensures Xor(x, y) == Xor(y, x)
  {
  }

  /** Messages of one length that differ only within `n` consecutive bits, at most
    sixteen, wherever the byte borders are, never have the same CRC. */
  lemma BurstDetected(m: seq<bv8>, m': seq<bv8>, i: nat, n: nat)
    requires |m| == |m'| && m != m' && n <= 16 && i + n <= 8 * |m|
    requires MessageBits(m)[..i] == MessageBits(m')[..i] && MessageBits(m)[i + n..] == MessageBits(m')[i + n..]
    ensures Crc(m) != Crc(m')
  {
    hide MessageBits, CrcBits, CrcFrom, Steps, Value, Xor;
    var x, y := MessageBits(m), MessageBits(m');
    CrcIsBits(0xFFFF, m);
    CrcIsBits(0xFFFF, m');
    SplitCrc(0xFFFF, x, i, n);
    SplitCrc(0xFFFF, y, i, n);
    if Crc(m) == Crc(m') {
      var crc, w, w' := CrcBits(0xFFFF, x[..i]), x[i..i + n], y[i..i + n];
      CrcBitsInjective(CrcBits(crc, w), CrcBits(crc, w'), x[i + n..]);
      WindowState(crc, w);
      WindowState(crc, w');
      StepsInjective(Xor(crc, Value(w)), Xor(crc, Value(w')), n);
      XorCancels(crc, Value(w), Value(w'));
      ValueInjective(w, w');
      assert x == x[..i] + w + x[i + n..] && y == y[..i] + w' + y[i + n..];
      MessageBitsInjective(m, m');
    }
  }

  lemma SplitCrc(crc: bv16, bits: seq<bool>, i: nat, n: nat)
    requires i + n <= |bits|
    ensures CrcBits(crc, bits) == CrcBits(CrcBits(CrcBits(crc, bits[..i]), bits[i..i + n]), bits[i + n..])
  {
    hide CrcBits;
    assert bits == bits[..i] + (bits[i..i + n] + bits[i + n..]);
    CrcBitsConcat(crc, bits[..i], bits[i..i + n] + bits[i + n..]);
    CrcBitsConcat(CrcBits(crc, bits[..i]), bits[i..i + n], bits[i + n..]);
  }

  // ----- damage as a message of its own -------------------------------------

  /** The message with the bits of `d` flipped. */
  function XorBytes(m: seq<bv8>, d: seq<bv8>): (r: seq<bv8>)
    requires |m| == |d|
    ensures |r| == |m| && forall i :: 0 <= i < |m| ==> r[i] == m[i] ^ d[i]
  {
    seq(|m|, i requires 0 <= i < |m| => m[i] ^ d[i])
  }

  lemma MixXor(x: bv16, y: bv16, a: bv8, b: bv8)
    ensures Mix(Xor(x, y), a ^ b) == Xor(Mix(x, a), Mix(y, b))
  {
  }

  /** The register is linear over whole messages. */
  lemma {:induction false} CrcLinear(x: bv16, y: bv16, m: seq<bv8>, d: seq<bv8>)
    requires |m| == |d|
    ensures CrcFrom(Xor(x, y), XorBytes(m, d)) == Xor(CrcFrom(x, m), CrcFrom(y, d))
    decreases |m|
  {
    hide Steps, Mix, Xor;
    if m != [] {
      MixXor(x, y, m[0], d[0]);
      StepsLinear(Mix(x, m[0]), Mix(y, d[0]), 8);
      CrcLinear(Absorb(x, m[0]), Absorb(y, d[0]), m[1..], d[1..]);
      assert XorBytes(m, d)[1..] == XorBytes(m[1..], d[1..]);
    }
  }

  /** What damage does to the CRC depends on the damage alone. */
  lemma CrcOfDamaged(m: seq<bv8>, d: seq<bv8>)
    requires |m| == |d|
    ensures Crc(XorBytes(m, d)) == Xor(Crc(m), CrcFrom(0, d))
  {
    hide CrcFrom, Xor;
    XorZero(0xFFFF);
    CrcLinear(0xFFFF, 0, m, d);
  }

  // ----- parity -------------------------------------------------------------

  /** Whether the `n` lowest bits of a number hold an odd number of ones. */
  function OddBits(v: bv16, n: nat): bool
    decreases n
  {
    n > 0 && (Odd(v) != OddBits(Shift(v), n - 1))
  }

  function Parity(v: bv16): bool {
    OddBits(v, 16)
  }

  /** Whether a run of bits has an odd number of ones. */
  function OddOnes(bits: seq<bool>): bool {
    bits != [] && (bits[0] != OddOnes(bits[1..]))
  }

  lemma {:induction false} OddBitsXor(x: bv16, y: bv16, n: nat)
    ensures OddBits(Xor(x, y), n) == (OddBits(x, n) != OddBits(y, n))
    decreases n
  {
    hide Odd, Shift, Xor;
    if n > 0 {
      OddXor(x, y);
      ShiftXor(x, y);
      OddBitsXor(Shift(x), Shift(y), n - 1);
    }
  }

  /** A bit that is not there does not count. */
  lemma {:induction false} OddBitsShort(v: bv16, n: nat)
    requires Shifted(v, n) == 0
    ensures OddBits(v, n + 1) == OddBits(v, n)
    decreases n
  {
    hide Shift;
    if n > 0 {
      OddBitsShort(Shift(v), n - 1);
    }
  }

  lemma ShiftFits(v: bv16)
    ensures Shifted(Shift(v), 15) == 0
  {
    var w := Shift(v);
    var a := Shift(Shift(Shift(w)));
    var b := Shift(Shift(Shift(a)));
    var c := Shift(Shift(Shift(b)));
    var d := Shift(Shift(Shift(c)));
    assert Shifted(w, 15) == Shifted(a, 12) by { ShiftedThree(w, 12); }
    assert Shifted(a, 12) == Shifted(b, 9) by { ShiftedThree(a, 9); }
    assert Shifted(b, 9) == Shifted(c, 6) by { ShiftedThree(b, 6); }
    assert Shifted(c, 6) == Shifted(d, 3) by { ShiftedThree(c, 3); }
    assert Shifted(d, 3) == Shift(Shift(Shift(d))) by { ShiftedThree(d, 0); }
  }

  /** The polynomial has three ones, so a shift that mixes it in makes up for the one that
    is shifted out. */
  lemma ParityStep(v: bv16)
    ensures Parity(Step(v)) == Parity(v)
  {
    hide Odd, Shift, Xor, Shifted;
    ShiftFits(v);
    OddBitsShort(Shift(v), 15);
    OddBitsXor(Shift(v), POLYNOMIAL, 16);
    PolynomialOdd();
  }

  lemma PolynomialOdd()
    ensures OddBits(0xA001, 16)
  {
    assert OddBits(0x01, 1) && OddBits(0x02, 2) && !OddBits(0x05, 3);
    assert OddBits(0xA001, 16) != OddBits(0x5000, 15);
    assert OddBits(0x5000, 15) == OddBits(0x1400, 13) == OddBits(0x0500, 11) == OddBits(0x0140, 9);
    assert OddBits(0x0140, 9) == OddBits(0x0050, 7) == OddBits(0x0014, 5) == OddBits(0x0005, 3);
  }

  lemma ParityFlip(v: bv16, b: bool)
    ensures Parity(Xor(v, BitOf(b))) == (Parity(v) != b)
  {
    hide Xor, OddBits;
    OddBitsXor(v, BitOf(b), 16);
    OneOdd();
    NoneOdd(16);
  }

  lemma OneOdd()
    ensures OddBits(1, 16)
  {
    hide OddBits;
    NoneOdd(15);
    OddBitsStep(1, 16);
    assert Odd(1) && Shift(1) == 0;
  }

  lemma OddBitsStep(v: bv16, n: nat)
    requires n > 0
    ensures OddBits(v, n) == (Odd(v) != OddBits(Shift(v), n - 1))
  {
  }

  lemma {:induction false} NoneOdd(n: nat)
    ensures !OddBits(0, n)
    decreases n
  {
    if n > 0 {
      assert !Odd(0) && Shift(0) == 0;
      NoneOdd(n - 1);
    }
  }

  /** The register keeps count of the ones, modulo two. */
  lemma {:induction false} ParityOfCrc(crc: bv16, bits: seq<bool>)
    ensures Parity(CrcBits(crc, bits)) == (Parity(crc) != OddOnes(bits))
    decreases |bits|
  {
    hide Parity, Step, Xor, BitOf;
    if bits != [] {
      var next := Xor(crc, BitOf(bits[0]));
      ParityFlip(crc, bits[0]);
      ParityStep(next);
      ParityOfCrc(Step(next), bits[1..]);
    }
  }

  /** Messages whose numbers of ones differ by an odd number, wherever they differ, never
    have the same CRC. */
  lemma OddFlipsDetected(m: seq<bv8>, m': seq<bv8>)
    requires OddOnes(MessageBits(m)) != OddOnes(MessageBits(m'))
    ensures Crc(m) != Crc(m')
  {
    hide MessageBits, CrcFrom, CrcBits, Parity, OddOnes;
    CrcIsBits(0xFFFF, m);
    CrcIsBits(0xFFFF, m');
    ParityOfCrc(0xFFFF, MessageBits(m));
    ParityOfCrc(0xFFFF, MessageBits(m'));
  }

  // ----- particular messages -----------------------------------------------

  lemma {:induction false} ZerosKeepZero(msg: seq<bv8>)
    requires forall k :: 0 <= k < |msg| ==> msg[k] == 0
    ensures CrcFrom(0, msg) == 0
  {
    hide Absorb;
    if msg != [] {
      AbsorbZero();
      ZerosKeepZero(msg[1..]);
    }
  }

  lemma AbsorbZero()
    ensures Absorb(0, 0) == 0
  {
    assert Step(0) == 0;
    assert Mix(0, 0) == 0;
    assert Steps(0, 8) == Steps(0, 6) == Steps(0, 4) == Steps(0, 2) == 0;
  }

  /** The CRC of zeros is not zero. */
  lemma ZerosLeaveCrc(msg: seq<bv8>)
    requires forall k :: 0 <= k < |msg| ==> msg[k] == 0
    ensures Crc(msg) != 0
  {
    hide CrcFrom;
    ZerosKeepZero(msg);
    if Crc(msg) == 0 {
      CrcFromInjective(0xFFFF, 0, msg);
    }
  }

  /** The effect on the CRC of one kind of damage to the last byte. */
  lemma LastByteDamaged(head: seq<bv8>, b: bv8)
    ensures Crc(head + [b ^ 0x0C]) == Xor(Crc(head + [b]), 0x0500)
  {
    hide Absorb, Xor, Mix, Steps;
    var crc := CrcFrom(0xFFFF, head);
    CrcFromConcat(0xFFFF, head, [b]);
    CrcFromConcat(0xFFFF, head, [b ^ 0x0C]);
    AbsorbOne(crc, b);
    AbsorbOne(crc, b ^ 0x0C);
    MixDamaged(crc, b);
    StepsLinear(Mix(crc, b), 0x0C, 8);
    StepsOfDamage();
  }

  lemma AbsorbOne(crc: bv16, b: bv8)
    ensures CrcFrom(crc, [b]) == Steps(Mix(crc, b), 8)
  {
    hide Steps, Mix;
    assert [b][0] == b && [b][1..] == [];
    assert CrcFrom(Absorb(crc, b), []) == Absorb(crc, b);
  }

  lemma MixDamaged(crc: bv16, b: bv8)
    ensures Mix(crc, b ^ 0x0C) == Xor(Mix(crc, b), 0x0C)
  {
  }

  lemma StepsOfDamage()
    ensures Steps(0x0C, 8) == 0x0500
  {
    assert Step(0x0C) == 0x06 && Step(0x06) == 0x03 && Step(0x03) == 0xA000 && Step(0xA000) == 0x5000;
    assert Step(0x5000) == 0x2800 && Step(0x2800) == 0x1400 && Step(0x1400) == 0x0A00 && Step(0x0A00) == 0x0500;
    assert Steps(0x0C, 8) == Steps(0x03, 6) == Steps(0x5000, 4) == Steps(0x1400, 2);
  }

  /** The CRC of two bytes, number by number. */
  lemma KnownCrc()
    ensures Crc([0x12, 0x34]) == 0xC70C
  {
    hide Absorb;
    FirstKnown();
    SecondKnown();
    assert [0x12, 0x34][1..] == [0x34] && [0x34 as bv8][1..] == [];
  }

  lemma FirstKnown()
    ensures Absorb(0xFFFF, 0x12) == 0x4D3F
  {
    assert Mix(0xFFFF, 0x12) == 0xFFED;
    assert Step(0xFFED) == 0xDFF7 && Step(0xDFF7) == 0xCFFA && Step(0xCFFA) == 0x67FD && Step(0x67FD) == 0x93FF;
    assert Step(0x93FF) == 0xE9FE && Step(0xE9FE) == 0x74FF && Step(0x74FF) == 0x9A7E && Step(0x9A7E) == 0x4D3F;
    assert Steps(0xFFED, 8) == Steps(0xCFFA, 6) == Steps(0x93FF, 4) == Steps(0x74FF, 2) == Steps(0x4D3F, 0);
  }

  lemma SecondKnown()
    ensures Absorb(0x4D3F, 0x34) == 0xC70C
  {
    assert Mix(0x4D3F, 0x34) == 0x4D0B;
    assert Step(0x4D0B) == 0x8684 && Step(0x8684) == 0x4342 && Step(0x4342) == 0x21A1 && Step(0x21A1) == 0xB0D1;
    assert Step(0xB0D1) == 0xF869 && Step(0xF869) == 0xDC35 && Step(0xDC35) == 0xCE1B && Step(0xCE1B) == 0xC70C;
    assert Steps(0x4D0B, 8) == Steps(0x4342, 6) == Steps(0xB0D1, 4) == Steps(0xDC35, 2) == Steps(0xC70C, 0);
  }
}
