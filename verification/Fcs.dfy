// The 16-bit frame check sequence of hdlc/hdlc.c: the table-driven form against the bit-serial
// one of RFC 1662, appendix C, and what it detects.
module Fcs {
  import opened FcsTable

  const INIT: bv16 := 0xffff
  const GOOD: bv16 := 0xf0b8

  function Xor16(a: bv16, b: bv16): bv16
  {
    a ^ b
  }

  // One shift of the register, with the reflected polynomial x^16 + x^12 + x^5 + 1.
  function Shift(v: bv16): bv16
  {
    Xor16(v >> 1, Feedback(v))
  }

  function Feedback(v: bv16): bv16
  {
    if v & 1 == 1 then 0x8408 else 0
  }

  // ----- one bit at a time -----

  function BitValue(b: bool): bv16
  {
    if b then 1 else 0
  }

  function StepBit(fcs: bv16, b: bool): bv16
  {
    Shift(Xor16(fcs, BitValue(b)))
  }

  function CrcBits(fcs: bv16, s: seq<bool>): bv16
    decreases |s|
  {
    if s == [] then fcs else CrcBits(StepBit(fcs, s[0]), s[1..])
  }

  // The bits of a byte in the order of transmission, low-order bit first.
  function ByteBits(b: bv8): (r: seq<bool>)
    ensures |r| == 8
  {
    [b & 1 != 0, b & 2 != 0, b & 4 != 0, b & 8 != 0, b & 16 != 0, b & 32 != 0, b & 64 != 0, b & 128 != 0]
  }

  function Bits(s: seq<bv8>): (r: seq<bool>)
    ensures |r| == 8 * |s|
  {
    if s == [] then [] else ByteBits(s[0]) + Bits(s[1..])
  }

  // ----- the table-driven form -----

  function StepByte(fcs: bv16, b: bv8): bv16
  {
    Xor16(fcs >> 8, FcsTab((Xor16(fcs, b as bv16) & 0xff) as bv8))
  }

  function Crc(fcs: bv16, s: seq<bv8>): bv16
    decreases |s|
  {
    if s == [] then fcs else Crc(StepByte(fcs, s[0]), s[1..])
  }

  method Pppfcs16(fcs: bv16, cp: array<bv8>, off: nat, len: nat) returns (r: bv16)
    requires off + len <= cp.Length
    ensures r == Crc(fcs, cp[off..off + len])
  {
    hide StepByte;
    r := fcs;
    var i := 0;
    while i < len
      invariant 0 <= i <= len
      invariant Crc(r, cp[off + i..off + len]) == Crc(fcs, cp[off..off + len])
    {
      assert cp[off + i..off + len][1..] == cp[off + i + 1..off + len];
      r := StepByte(r, cp[off + i]);
      i := i + 1;
    }
  }

  // ----- the table is eight shifts -----

  function Shift8(v: bv16): bv16
  {
    Shift(Shift(Shift(Shift(Shift(Shift(Shift(Shift(v))))))))
  }

  lemma TableEntry(b: bv8)
    ensures FcsTab(b) == Shift8(b as bv16)
  {
    match b & 0xf
    case 0 => case 1 => case 2 => case 3 => case 4 => case 5 => case 6 => case 7 =>
    case 8 => case 9 => case 10 => case 11 => case 12 => case 13 => case 14 => case _ =>
  }

  lemma XorLaws(a: bv16, b: bv16, c: bv16)
    ensures Xor16(Xor16(a, b), c) == Xor16(a, Xor16(b, c))
    ensures Xor16(a, b) == Xor16(b, a)
    ensures Xor16(a, 0) == a
    ensures Xor16(a, a) == 0
  {}

  lemma XorSwap(a: bv16, b: bv16, c: bv16, d: bv16)
    ensures Xor16(Xor16(a, b), Xor16(c, d)) == Xor16(Xor16(a, c), Xor16(b, d))
  {
    hide Xor16;
    XorLaws(a, b, Xor16(c, d));
    XorLaws(b, c, d);
    XorLaws(c, b, d);
    XorLaws(a, c, Xor16(b, d));
  }

  lemma HalvesLinear(a: bv16, b: bv16)
    ensures Xor16(a, b) >> 1 == Xor16(a >> 1, b >> 1)
  {
    calc {
      Xor16(a, b) >> 1;
      (a ^ b) >> 1;
      (a >> 1) ^ (b >> 1);
      Xor16(a >> 1, b >> 1);
    }
  }

  lemma FeedbackLinear(a: bv16, b: bv16)
    ensures Feedback(Xor16(a, b)) == Xor16(Feedback(a), Feedback(b))
  {
    assert ((a ^ b) & 1 == 1) == ((a & 1 == 1) != (b & 1 == 1));
  }

  lemma ShiftLinear(a: bv16, b: bv16)
    ensures Shift(Xor16(a, b)) == Xor16(Shift(a), Shift(b))
  {
    hide Xor16, Feedback;
    HalvesLinear(a, b);
    FeedbackLinear(a, b);
    XorSwap(a >> 1, b >> 1, Feedback(a), Feedback(b));
  }

  lemma Shift8Linear(a: bv16, b: bv16)
    ensures Shift8(Xor16(a, b)) == Xor16(Shift8(a), Shift8(b))
  {
    hide Xor16, Shift;
    ShiftLinear(a, b);
    var a1, b1 := Shift(a), Shift(b);
    ShiftLinear(a1, b1);
    var a2, b2 := Shift(a1), Shift(b1);
    ShiftLinear(a2, b2);
    var a3, b3 := Shift(a2), Shift(b2);
    ShiftLinear(a3, b3);
    var a4, b4 := Shift(a3), Shift(b3);
    ShiftLinear(a4, b4);
    var a5, b5 := Shift(a4), Shift(b4);
    ShiftLinear(a5, b5);
    var a6, b6 := Shift(a5), Shift(b5);
    ShiftLinear(a6, b6);
    var a7, b7 := Shift(a6), Shift(b6);
    ShiftLinear(a7, b7);
  }

  lemma HighByteFalls(v: bv16)
    ensures Shift8(v & 0xff00) == v >> 8
    ensures Xor16(v & 0xff00, v & 0xff) == v
  {}

  // One table step is eight shifts of the register with the byte added.
  lemma StepByteIsShift8(fcs: bv16, b: bv8)
    ensures StepByte(fcs, b) == Shift8(Xor16(fcs, b as bv16))
  {
    hide Xor16, Shift8, FcsTab;
    var v := Xor16(fcs, b as bv16);
    HighByteFalls(v);
    Shift8Linear(v & 0xff00, v & 0xff);
    TableEntry((v & 0xff) as bv8);
    HighOfSum(fcs, b);
  }

  lemma HighOfSum(fcs: bv16, b: bv8)
    ensures Xor16(fcs, b as bv16) >> 8 == fcs >> 8
  {}

  lemma LowBitSplits(w: bv16)
    ensures Xor16(BitValue(w & 1 == 1), w & 0xfffe) == w
    ensures Shift(w & 0xfffe) == w >> 1
  {}

  // One shift consumes the low bit of a pending word.
  lemma BitEnters(s: bv16, w: bv16)
    ensures Shift(Xor16(s, w)) == Xor16(StepBit(s, w & 1 == 1), w >> 1)
  {
    hide Xor16, Shift, BitValue;
    var b := BitValue(w & 1 == 1);
    LowBitSplits(w);
    XorLaws(s, b, w & 0xfffe);
    ShiftLinear(Xor16(s, b), w & 0xfffe);
  }

  // Bits enter one by one just as well as all at once.
  lemma BitsEnter(fcs: bv16, b: bv8)
    ensures Shift8(Xor16(fcs, b as bv16)) == CrcBits(fcs, ByteBits(b))
  {
    hide Xor16, Shift, StepBit;
    var w := b as bv16;
    var t := ByteBits(b);
    BitPositions(b);
    var s0 := fcs;
    BitEnters(s0, w);
    var s1 := StepBit(s0, t[0]);
    BitEnters(s1, w >> 1);
    var s2 := StepBit(s1, t[1]);
    BitEnters(s2, w >> 2);
    var s3 := StepBit(s2, t[2]);
    BitEnters(s3, w >> 3);
    var s4 := StepBit(s3, t[3]);
    BitEnters(s4, w >> 4);
    var s5 := StepBit(s4, t[4]);
    BitEnters(s5, w >> 5);
    var s6 := StepBit(s5, t[5]);
    BitEnters(s6, w >> 6);
    var s7 := StepBit(s6, t[6]);
    BitEnters(s7, w >> 7);
    var s8 := StepBit(s7, t[7]);
    XorLaws(s8, 0, 0);
    EightBits(fcs, t);
  }

  lemma BitPositions(b: bv8)
    ensures var w, t := b as bv16, ByteBits(b);
            && t[0] == (w & 1 == 1) && t[1] == ((w >> 1) & 1 == 1) && t[2] == ((w >> 2) & 1 == 1)
            && t[3] == ((w >> 3) & 1 == 1) && t[4] == ((w >> 4) & 1 == 1) && t[5] == ((w >> 5) & 1 == 1)
            && t[6] == ((w >> 6) & 1 == 1) && t[7] == ((w >> 7) & 1 == 1)
            && (w >> 1) >> 1 == w >> 2 && (w >> 2) >> 1 == w >> 3 && (w >> 3) >> 1 == w >> 4
            && (w >> 4) >> 1 == w >> 5 && (w >> 5) >> 1 == w >> 6 && (w >> 6) >> 1 == w >> 7
            && (w >> 7) >> 1 == 0
  {}

  lemma EightBits(fcs: bv16, t: seq<bool>)
    requires |t| == 8
    ensures CrcBits(fcs, t)
            == StepBit(StepBit(StepBit(StepBit(StepBit(StepBit(StepBit(StepBit(
                 fcs, t[0]), t[1]), t[2]), t[3]), t[4]), t[5]), t[6]), t[7])
  {
    hide StepBit;
    var s1 := StepBit(fcs, t[0]);
    var s2 := StepBit(s1, t[1]);
    var s3 := StepBit(s2, t[2]);
    var s4 := StepBit(s3, t[3]);
    var s5 := StepBit(s4, t[4]);
    var s6 := StepBit(s5, t[5]);
    var s7 := StepBit(s6, t[6]);
    assert t[0..] == t;
    OneBit(fcs, t, 0);
    OneBit(s1, t, 1);
    OneBit(s2, t, 2);
    OneBit(s3, t, 3);
    OneBit(s4, t, 4);
    OneBit(s5, t, 5);
    OneBit(s6, t, 6);
    OneBit(s7, t, 7);
  }

  lemma OneBit(fcs: bv16, t: seq<bool>, i: nat)
    requires i < |t|
    ensures CrcBits(fcs, t[i..]) == CrcBits(StepBit(fcs, t[i]), t[i + 1..])
  {
    hide StepBit;
    assert t[i..][1..] == t[i + 1..];
  }

  lemma {:induction false} CrcBitsAppend(fcs: bv16, a: seq<bool>, b: seq<bool>)
    ensures CrcBits(fcs, a + b) == CrcBits(CrcBits(fcs, a), b)
    decreases |a|
  {
    hide StepBit;
    if a == [] {
      assert a + b == b;
    } else {
      assert (a + b)[1..] == a[1..] + b;
      CrcBitsAppend(StepBit(fcs, a[0]), a[1..], b);
    }
  }

  lemma {:induction false} CrcAppend(fcs: bv16, a: seq<bv8>, b: seq<bv8>)
    ensures Crc(fcs, a + b) == Crc(Crc(fcs, a), b)
    decreases |a|
  {
    hide StepByte;
    if a == [] {
      assert a + b == b;
    } else {
      assert (a + b)[1..] == a[1..] + b;
      CrcAppend(StepByte(fcs, a[0]), a[1..], b);
    }
  }

  // The table-driven check sequence is the bit-serial one, on every input.
  lemma {:induction false} CrcIsBitSerial(fcs: bv16, s: seq<bv8>)
    ensures Crc(fcs, s) == CrcBits(fcs, Bits(s))
    decreases |s|
  {
    hide StepByte, StepBit, Shift8, Xor16, ByteBits;
    if s != [] {
      StepByteIsShift8(fcs, s[0]);
      BitsEnter(fcs, s[0]);
      CrcBitsAppend(fcs, ByteBits(s[0]), Bits(s[1..]));
      CrcIsBitSerial(StepByte(fcs, s[0]), s[1..]);
    }
  }

  // ----- what the check detects -----

  // A register whose top bit is clear, and one shift up.
  predicate TopClear(v: bv16) { v & 0x8000 == 0 }
  function Up(v: bv16): bv16 { v << 1 }

  lemma ShiftBack(v: bv16)
    requires TopClear(Shift(v))
    ensures v == Up(Shift(v))
  {}

  // The difference of two bit strings, the first bit in the low-order place.
  function Pack(a: seq<bool>, b: seq<bool>): bv16
    requires |a| == |b|
    decreases |a|
  {
    if a == [] then 0 else Xor16(Up(Pack(a[1..], b[1..])), BitValue(a[0] != b[0]))
  }

  // The largest n-bit number.
  function Bound(n: nat): bv16
    requires n <= 16
  {
    match n
    case 0 => 0 case 1 => 0x1 case 2 => 0x3 case 3 => 0x7 case 4 => 0xf case 5 => 0x1f case 6 => 0x3f
    case 7 => 0x7f case 8 => 0xff case 9 => 0x1ff case 10 => 0x3ff case 11 => 0x7ff case 12 => 0xfff
    case 13 => 0x1fff case 14 => 0x3fff case 15 => 0x7fff case 16 => 0xffff
  }

  predicate Fits(v: bv16, n: nat)
    requires n <= 16
  {
    v <= Bound(n)
  }

  lemma FitsGrows(n: nat, v: bv16, b: bool)
    requires n < 16 && Fits(v, n)
    ensures Fits(Xor16(Up(v), BitValue(b)), n + 1)
    ensures TopClear(v)
    ensures Xor16(Up(v), BitValue(b)) == 0 ==> v == 0 && !b
  {}

  lemma ZeroFits()
    ensures Fits(0, 0)
  {}

  lemma {:induction false} PackFits(a: seq<bool>, b: seq<bool>)
    requires |a| == |b| <= 16
    ensures Fits(Pack(a, b), |a|)
    ensures Pack(a, b) == 0 ==> a == b
    decreases |a|
  {
    hide Fits, Xor16, BitValue, Up, TopClear;
    if a == [] {
      ZeroFits();
    } else {
      PackFits(a[1..], b[1..]);
      FitsGrows(|a| - 1, Pack(a[1..], b[1..]), a[0] != b[0]);
      if Pack(a, b) == 0 {
        assert a == [a[0]] + a[1..] && b == [b[0]] + b[1..];
      }
    }
  }

  lemma XorMoves(u: bv16, v: bv16, x: bv16, y: bv16, p: bv16)
    requires Xor16(Xor16(u, x), Xor16(v, y)) == p
    ensures Xor16(u, v) == Xor16(p, Xor16(x, y))
  {
    hide Xor16;
    XorSwap(u, x, v, y);
    XorLaws(Xor16(u, v), Xor16(x, y), Xor16(x, y));
    XorLaws(Xor16(u, v), 0, 0);
    XorLaws(Xor16(x, y), Xor16(x, y), 0);
  }

  lemma BitDifference(x: bool, y: bool)
    ensures Xor16(BitValue(x), BitValue(y)) == BitValue(x != y)
  {}

  // Two registers that agree after at most sixteen bits differed by exactly those bits.
  lemma {:induction false} Backtrack(f: bv16, f': bv16, a: seq<bool>, b: seq<bool>)
    requires |a| == |b| <= 16
    requires CrcBits(f, a) == CrcBits(f', b)
    ensures Xor16(f, f') == Pack(a, b)
    decreases |a|
  {
    hide Xor16, Shift, BitValue, Up, TopClear, Fits;
    if a == [] {
      XorLaws(f, f', f);
    } else {
      var u, v := Xor16(f, BitValue(a[0])), Xor16(f', BitValue(b[0]));
      Backtrack(Shift(u), Shift(v), a[1..], b[1..]);
      var p := Pack(a[1..], b[1..]);
      ShiftLinear(u, v);
      PackFits(a[1..], b[1..]);
      FitsGrows(|a| - 1, p, true);
      ShiftBack(Xor16(u, v));
      XorMoves(f, f', BitValue(a[0]), BitValue(b[0]), Up(p));
      BitDifference(a[0], b[0]);
    }
  }

  // Distinct registers stay distinct whatever follows.
  lemma {:induction false} Injective(f: bv16, f': bv16, y: seq<bool>)
    requires CrcBits(f, y) == CrcBits(f', y)
    ensures f == f'
    decreases |y|
  {
    hide Xor16, Shift, BitValue, Up, TopClear;
    if y != [] {
      var e := BitValue(y[0]);
      var u, v := Xor16(f, e), Xor16(f', e);
      Injective(Shift(u), Shift(v), y[1..]);
      ShiftLinear(u, v);
      XorLaws(Shift(u), Shift(v), 0);
      ZeroShift();
      ShiftBack(Xor16(u, v));
      XorMoves(f, f', e, e, 0);
      XorLaws(e, e, e);
      XorLaws(0, 0, 0);
      SameWhenZero(f, f');
    }
  }

  lemma ZeroShift()
    ensures Up(0) == 0 && TopClear(0)
  {}

  lemma SameWhenZero(f: bv16, f': bv16)
    requires Xor16(f, f') == 0
    ensures f == f'
  {}

  // Every burst of errors that fits in sixteen consecutive transmitted bits is detected,
  // wherever it falls and however long the message is.
  lemma BurstDetected(f: bv16, x: seq<bool>, a: seq<bool>, b: seq<bool>, y: seq<bool>)
    requires |a| == |b| <= 16 && a != b
    ensures CrcBits(f, x + a + y) != CrcBits(f, x + b + y)
  {
    hide StepBit, Xor16;
    CrcBitsAppend(f, x + a, y);
    CrcBitsAppend(f, x + b, y);
    CrcBitsAppend(f, x, a);
    CrcBitsAppend(f, x, b);
    if CrcBits(f, x + a + y) == CrcBits(f, x + b + y) {
      var g := CrcBits(f, x);
      Injective(CrcBits(g, a), CrcBits(g, b), y);
      Backtrack(g, g, a, b);
      XorLaws(g, g, g);
      PackFits(a, b);
      assert false;
    }
  }

  // ----- odd numbers of errors -----

  // Whether the low n bits of a register hold an odd number of ones.
  predicate OddLow(v: bv16, n: nat)
    decreases n
  {
    n > 0 && (LowBit(v) != OddLow(Half(v), n - 1))
  }

  predicate LowBit(v: bv16) { v & 1 == 1 }
  function Half(v: bv16): bv16 { v >> 1 }

  predicate Odd(v: bv16)
  {
    OddLow(v, 16)
  }

  lemma LowBitLinear(a: bv16, b: bv16)
    ensures LowBit(Xor16(a, b)) == (LowBit(a) != LowBit(b))
  {
    assert ((a ^ b) & 1 == 1) == ((a & 1 == 1) != (b & 1 == 1));
  }

  lemma HalfLinear(a: bv16, b: bv16)
    ensures Half(Xor16(a, b)) == Xor16(Half(a), Half(b))
  {
    hide Xor16;
    HalvesLinear(a, b);
  }

  lemma {:induction false} OddLinear(a: bv16, b: bv16, n: nat)
    ensures OddLow(Xor16(a, b), n) == (OddLow(a, n) != OddLow(b, n))
    decreases n
  {
    hide Xor16, LowBit, Half;
    if n > 0 {
      HalfLinear(a, b);
      LowBitLinear(a, b);
      OddLinear(Half(a), Half(b), n - 1);
    }
  }

  lemma HalfFits(v: bv16, n: nat)
    requires n < 16
    ensures Fits(v, n + 1) ==> Fits(Half(v), n)
    ensures Fits(v, 0) ==> !LowBit(v)
    ensures Fits(Half(v), 15)
  {}

  lemma {:induction false} TopUnused(v: bv16, n: nat)
    requires n <= 15 && Fits(v, n)
    ensures OddLow(v, n + 1) == OddLow(v, n)
    decreases n
  {
    hide Fits, LowBit, Half;
    if n == 0 {
      HalfFits(v, 0);
    } else {
      HalfFits(v, n - 1);
      TopUnused(Half(v), n - 1);
    }
  }

  lemma FeedbackParity(v: bv16)
    ensures OddLow(Feedback(v), 16) == LowBit(v)
  {
    ConstantParity();
  }

  lemma ConstantParity()
    ensures OddLow(0x8408, 16) && !OddLow(0, 16)
  {
    assert OddLow(0x1, 1);
    assert OddLow(0x2, 2);
    assert OddLow(0x4, 3);
    assert OddLow(0x8, 4);
    assert OddLow(0x10, 5);
    assert !OddLow(0x21, 6);
    assert !OddLow(0x42, 7);
    assert !OddLow(0x84, 8);
    assert !OddLow(0x108, 9);
    assert !OddLow(0x210, 10);
    assert !OddLow(0x420, 11);
    assert !OddLow(0x840, 12);
    assert OddLow(0x1081, 13);
    assert OddLow(0x2102, 14);
    assert OddLow(0x4204, 15);
    assert OddLow(0x8408, 16);
    SmallParity(16);
  }

  lemma ShiftKeepsParity(v: bv16)
    ensures Odd(Shift(v)) == Odd(v)
  {
    hide Xor16, Feedback, LowBit, Fits, OddLow;
    OddLinear(v >> 1, Feedback(v), 16);
    FeedbackParity(v);
    HalfFits(v, 0);
    TopUnused(Half(v), 15);
    OddStep(v, 16);
  }

  lemma OddStep(v: bv16, n: nat)
    requires n > 0
    ensures OddLow(v, n) == (LowBit(v) != OddLow(Half(v), n - 1))
  {}

  lemma BitTogglesParity(v: bv16, b: bool)
    ensures Odd(Xor16(v, BitValue(b))) == (Odd(v) != b)
  {
    hide Xor16;
    OddLinear(v, BitValue(b), 16);
    SmallParity(16);
  }

  lemma {:induction false} SmallParity(n: nat)
    requires n >= 1
    ensures OddLow(1, n) && !OddLow(0, n)
    decreases n
  {
    if n > 1 {
      SmallParity(n - 1);
    }
  }

  predicate OddOnes(s: seq<bool>)
  {
    s != [] && (s[0] != OddOnes(s[1..]))
  }

  lemma {:induction false} CrcKeepsParity(f: bv16, s: seq<bool>)
    ensures Odd(CrcBits(f, s)) == (Odd(f) != OddOnes(s))
    decreases |s|
  {
    hide Odd, Xor16, Shift, BitValue;
    if s != [] {
      var u := Xor16(f, BitValue(s[0]));
      BitTogglesParity(f, s[0]);
      ShiftKeepsParity(u);
      CrcKeepsParity(Shift(u), s[1..]);
    }
  }

  function Differences(a: seq<bool>, b: seq<bool>): seq<bool>
    requires |a| == |b|
  {
    if a == [] then [] else [a[0] != b[0]] + Differences(a[1..], b[1..])
  }

  lemma {:induction false} ParityOfDifferences(a: seq<bool>, b: seq<bool>)
    requires |a| == |b|
    ensures OddOnes(Differences(a, b)) == (OddOnes(a) != OddOnes(b))
  {
    if a != [] {
      ParityOfDifferences(a[1..], b[1..]);
      assert Differences(a, b)[1..] == Differences(a[1..], b[1..]);
    }
  }

  // Every odd number of wrong bits is detected.
  lemma OddErrorsDetected(f: bv16, a: seq<bool>, b: seq<bool>)
    requires |a| == |b| && OddOnes(Differences(a, b))
    ensures CrcBits(f, a) != CrcBits(f, b)
  {
    ParityOfDifferences(a, b);
    CrcKeepsParity(f, a);
    CrcKeepsParity(f, b);
  }

  // ----- the check of a frame -----

  // The sequence a sender appends to c, low byte first.
  function Trailer(c: seq<bv8>): (r: seq<bv8>)
    ensures |r| == 2
  {
    Low(Xor16(Crc(INIT, c), 0xffff))
  }

  // hdlc_set_uint16_low_first
  function Low(v: bv16): (r: seq<bv8>)
    ensures |r| == 2
  {
    [(v & 0xff) as bv8, ((v >> 8) & 0xff) as bv8]
  }

  // The comparison of hdlc_check_fcs and hdlc_check_hcs, over the bytes that follow the flag up to
  // and including the two check bytes.
  predicate Checks(c: seq<bv8>)
    requires |c| >= 2
  {
    var n := |c| - 2;
    Joined(c[n], c[n + 1]) == Xor16(Crc(INIT, c[..n]), 0xffff)
  }

  function Joined(lo: bv8, hi: bv8): bv16
  {
    (hi as bv16 << 8) + lo as bv16
  }

  lemma JoinLow(v: bv16, lo: bv8, hi: bv8)
    ensures Joined(lo, hi) == v <==> [lo, hi] == Low(v)
  {
    hide Joined, Low;
    JoinSplits(lo, hi);
    LowJoins(v);
  }

  lemma JoinSplits(lo: bv8, hi: bv8)
    ensures Low(Joined(lo, hi)) == [lo, hi]
  {}

  lemma LowJoins(v: bv16)
    ensures Joined(Low(v)[0], Low(v)[1]) == v
  {}

  lemma ChecksTrailer(c: seq<bv8>)
    requires |c| >= 2
    ensures Checks(c) <==> c[|c| - 2..] == Trailer(c[..|c| - 2])
  {
    hide Xor16, Low, Joined;
    var n := |c| - 2;
    JoinLow(Xor16(Crc(INIT, c[..n]), 0xffff), c[n], c[n + 1]);
    assert c[n..] == [c[n], c[n + 1]];
  }

  lemma OnesResidue(f: bv16)
    ensures var t := Low(Xor16(f, 0xffff)); StepByte(StepByte(f, t[0]), t[1]) == GOOD
  {}

  lemma BitsAppend(a: seq<bv8>, b: seq<bv8>)
    ensures Bits(a + b) == Bits(a) + Bits(b)
  {
    hide ByteBits;
    if a == [] {
      assert a + b == b;
    } else {
      assert (a + b)[1..] == a[1..] + b;
      BitsAppend(a[1..], b);
    }
  }

  lemma ByteBitsInjective(a: bv8, b: bv8)
    requires ByteBits(a) == ByteBits(b)
    ensures a == b
  {
    assert ByteBits(a)[0] == ByteBits(b)[0] && ByteBits(a)[1] == ByteBits(b)[1];
    assert ByteBits(a)[2] == ByteBits(b)[2] && ByteBits(a)[3] == ByteBits(b)[3];
    assert ByteBits(a)[4] == ByteBits(b)[4] && ByteBits(a)[5] == ByteBits(b)[5];
    assert ByteBits(a)[6] == ByteBits(b)[6] && ByteBits(a)[7] == ByteBits(b)[7];
  }

  lemma PairBits(u: bv8, v: bv8)
    ensures Bits([u, v]) == ByteBits(u) + ByteBits(v)
  {
    hide ByteBits;
    assert [u, v][1..] == [v] && [v][1..] == [];
    assert Bits([v]) == ByteBits(v) + [];
  }

  lemma PairInjective(u: bv8, v: bv8, u': bv8, v': bv8)
    requires Bits([u, v]) == Bits([u', v'])
    ensures u == u' && v == v'
  {
    hide ByteBits;
    PairBits(u, v);
    PairBits(u', v');
    assert (ByteBits(u) + ByteBits(v))[..8] == ByteBits(u) && (ByteBits(u) + ByteBits(v))[8..] == ByteBits(v);
    assert (ByteBits(u') + ByteBits(v'))[..8] == ByteBits(u') && (ByteBits(u') + ByteBits(v'))[8..] == ByteBits(v');
    ByteBitsInjective(u, u');
    ByteBitsInjective(v, v');
  }

  lemma CrcPair(f: bv16, u: bv8, v: bv8)
    ensures Crc(f, [u, v]) == StepByte(StepByte(f, u), v)
  {
    hide StepByte;
    var g := StepByte(f, u);
    assert [u, v][1..] == [v] && [v][1..] == [];
    assert Crc(g, [v]) == Crc(StepByte(g, v), []);
  }

  // A frame passes exactly when the register over everything up to the check bytes ends in 0xF0B8.
  lemma ChecksIffResidue(c: seq<bv8>)
    requires |c| >= 2
    ensures Checks(c) <==> Crc(INIT, c) == GOOD
  {
    hide StepByte, Xor16, Low, Joined, Bits, Pack, StepBit;
    var n := |c| - 2;
    var p, t := c[..n], c[n..];
    var f := Crc(INIT, p);
    var g := Trailer(p);
    ChecksTrailer(c);
    assert c == p + t && t == [t[0], t[1]] && g == [g[0], g[1]];
    CrcAppend(INIT, p, t);
    OnesResidue(f);
    CrcPair(f, g[0], g[1]);
    if Crc(INIT, c) == GOOD {
      CrcIsBitSerial(f, t);
      CrcIsBitSerial(f, g);
      Backtrack(f, f, Bits(t), Bits(g));
      XorLaws(f, f, f);
      PackFits(Bits(t), Bits(g));
      PairInjective(t[0], t[1], g[0], g[1]);
    }
  }

  // Main results on frames of any length: c is what follows the opening flag, up to and including
  // the frame check sequence.
  lemma FrameBurst(c: seq<bv8>, d: seq<bv8>, x: seq<bool>, a: seq<bool>, b: seq<bool>, y: seq<bool>)
    requires |c| == |d| >= 2 && Checks(c)
    requires Bits(c) == x + a + y && Bits(d) == x + b + y
    requires |a| == |b| <= 16 && a != b
    ensures !Checks(d)
  {
    ChecksIffResidue(c);
    ChecksIffResidue(d);
    CrcIsBitSerial(INIT, c);
    CrcIsBitSerial(INIT, d);
    BurstDetected(INIT, x, a, b, y);
  }

  lemma FrameOddErrors(c: seq<bv8>, d: seq<bv8>)
    requires |c| == |d| >= 2 && Checks(c)
    requires OddOnes(Differences(Bits(c), Bits(d)))
    ensures !Checks(d)
  {
    ChecksIffResidue(c);
    ChecksIffResidue(d);
    CrcIsBitSerial(INIT, c);
    CrcIsBitSerial(INIT, d);
    OddErrorsDetected(INIT, Bits(c), Bits(d));
  }

  // One wrong byte, or two adjacent ones.
  lemma FrameAdjacentBytes(c: seq<bv8>, d: seq<bv8>, j: nat)
    requires |c| == |d| && j + 1 < |c| && Checks(c)
    requires forall k :: 0 <= k < |c| && k != j && k != j + 1 ==> d[k] == c[k]
    requires d != c
    ensures !Checks(d)
  {
    hide Bits, Checks;
    var p, s := c[..j], c[j + 2..];
    var u, v := [c[j], c[j + 1]], [d[j], d[j + 1]];
    assert c == p + u + s;
    assert d == p + v + s by {
      assert d[..j] == p && d[j + 2..] == s;
    }
    BitsAppend(p + u, s);
    BitsAppend(p, u);
    BitsAppend(p + v, s);
    BitsAppend(p, v);
    if Bits(u) == Bits(v) {
      PairInjective(c[j], c[j + 1], d[j], d[j + 1]);
      assert false;
    }
    FrameBurst(c, d, Bits(p), Bits(u), Bits(v), Bits(s));
  }

  // What a sender appends always passes.
  lemma TrailerChecks(p: seq<bv8>)
    ensures Checks(p + Trailer(p))
  {
    hide Low, Joined;
    var c := p + Trailer(p);
    ChecksTrailer(c);
    assert c[..|c| - 2] == p;
  }
}
