// The products of section 6.3 of NIST SP 800-38D make the field elements a commutative ring.
module GcmRing {
  import opened Bytes
  import opened Gf128
  import opened GcmSpec
  import opened GcmTable

  // The element 1: the coefficient of P^0.
  const One := Elem(0x8000000000000000, 0)

  // The product of two elements.
  function Mul(a: Elem, b: Elem): Elem
  {
    Tail(ElemBlock(a), 0, b)
  }

  // ----- blocks and elements -----

  lemma WordRoundTrip(n: bv64)
    ensures (BytesWord(WordBytes(n >> 32)) << 32) | BytesWord(WordBytes(n)) == n
  {}

  lemma SplitRoundTrip(n: bv64)
    ensures Join(Split(n)[0..4], Split(n)[4..8]) == n
  {
    hide WordBytes, BytesWord;
    assert Split(n)[0..4] == WordBytes(n >> 32) && Split(n)[4..8] == WordBytes(n);
    WordRoundTrip(n);
  }

  // Reading a block back gives the element it was written from.
  lemma ElemRoundTrip(e: Elem)
    ensures BlockElem(ElemBlock(e)) == e
  {
    hide Join, Split;
    var b := ElemBlock(e);
    assert b[0..4] == Split(e.hi)[0..4] && b[4..8] == Split(e.hi)[4..8];
    assert b[8..12] == Split(e.lo)[0..4] && b[12..16] == Split(e.lo)[4..8];
    SplitRoundTrip(e.hi);
    SplitRoundTrip(e.lo);
  }

  predicate IsWord(n: bv64) { n & 0xffffffff00000000 == 0 }

  lemma WordReturns(a: bv8, b: bv8, c: bv8, d: bv8)
    ensures WordBytes(BytesWord([a, b, c, d])) == [a, b, c, d] && IsWord(BytesWord([a, b, c, d]))
  {}

  lemma SplitWords(u: bv64, v: bv64)
    requires IsWord(u) && IsWord(v)
    ensures Split((u << 32) | v) == WordBytes(u) + WordBytes(v)
  {}

  lemma JoinReturns(x: seq<bv8>, y: seq<bv8>)
    requires |x| == |y| == 4
    ensures Split(Join(x, y)) == x + y
  {
    hide WordBytes, BytesWord, IsWord, Split, Join;
    assert x == [x[0], x[1], x[2], x[3]] && y == [y[0], y[1], y[2], y[3]];
    WordReturns(x[0], x[1], x[2], x[3]);
    WordReturns(y[0], y[1], y[2], y[3]);
    JoinWords(x, y, BytesWord(x), BytesWord(y));
  }

  lemma JoinWords(x: seq<bv8>, y: seq<bv8>, u: bv64, v: bv64)
    requires |x| == |y| == 4 && u == BytesWord(x) && v == BytesWord(y) && IsWord(u) && IsWord(v)
    ensures Split(Join(x, y)) == WordBytes(u) + WordBytes(v)
  {
    hide WordBytes, BytesWord, IsWord, Split;
    SplitWords(u, v);
  }

  // Writing an element back gives the block it was read from.
  lemma BlockRoundTrip(x: Block)
    ensures ElemBlock(BlockElem(x)) == x
  {
    hide Join, Split;
    JoinReturns(x[0..4], x[4..8]);
    JoinReturns(x[8..12], x[12..16]);
  }

  // ----- the second factor -----

  lemma WhenAdd(c: bool, v: Elem, w: Elem)
    ensures When(c, Add(v, w)) == Add(When(c, v), When(c, w))
  {}

  lemma AddMedial(a: Elem, b: Elem, c: Elem, d: Elem)
    ensures Add(Add(a, b), Add(c, d)) == Add(Add(a, c), Add(b, d))
  {
    hide Xor64;
    XorMedial(a.hi, b.hi, c.hi, d.hi);
    XorMedial(a.lo, b.lo, c.lo, d.lo);
  }

  lemma {:induction false} TailAdd(x: Block, i: nat, v: Elem, w: Elem)
    requires i <= 128
    ensures Tail(x, i, Add(v, w)) == Add(Tail(x, i, v), Tail(x, i, w))
    decreases 128 - i
  {
    hide Add, MulP, Bit;
    if i == 128 {
      AddLaws(Zero, Zero, Zero);
    } else {
      MulPLinear(v, w);
      TailAdd(x, i + 1, MulP(v), MulP(w));
      WhenAdd(Bit(x, i), v, w);
      AddMedial(When(Bit(x, i), v), When(Bit(x, i), w), Tail(x, i + 1, MulP(v)), Tail(x, i + 1, MulP(w)));
    }
  }

  lemma AddSelf(a: Elem)
    ensures Add(a, a) == Zero
  {}

  lemma TailZero(x: Block, i: nat)
    requires i <= 128
    ensures Tail(x, i, Zero) == Zero
  {
    hide Add, Bit, Tail;
    AddLaws(Zero, Zero, Zero);
    TailAdd(x, i, Zero, Zero);
    AddSelf(Tail(x, i, Zero));
  }

  // ----- the unit -----

  lemma BlockWords(b: bv8, y: seq<bv8>)
    requires |y| == 15
    ensures BlockElem([b] + y)
            == Elem(Join([b, y[0], y[1], y[2]], [y[3], y[4], y[5], y[6]]),
                    Join([y[7], y[8], y[9], y[10]], [y[11], y[12], y[13], y[14]]))
  {
    hide Join;
    var x: Block := [b] + y;
    assert x[0..4] == [b, y[0], y[1], y[2]] && x[4..8] == [y[3], y[4], y[5], y[6]];
    assert x[8..12] == [y[7], y[8], y[9], y[10]] && x[12..16] == [y[11], y[12], y[13], y[14]];
  }

  // A block shifted by a byte, nothing falling out.
  lemma ByteShift(y: Block)
    requires y[15] == 0
    ensures MulP4(MulP4(BlockElem(y))) == BlockElem([0] + y[..15])
  {
    hide MulP4, BlockElem, Join, High4, Low4;
    var z := BlockElem(y);
    WordShift(y[0], y[1], y[2], y[3], y[4], y[5], y[6], y[7], y[8], y[9], y[10], y[11], y[12], y[13], y[14]);
    assert y == [y[0]] + y[1..];
    BlockWords(y[0], y[1..]);
    BlockWords(0, y[..15]);
    Shoup(z);
    Shoup(MulP4(z));
  }

  lemma WordShift(a: bv8, b: bv8, c: bv8, d: bv8, e: bv8, f: bv8, g: bv8, h: bv8,
                  i: bv8, j: bv8, k: bv8, l: bv8, m: bv8, n: bv8, o: bv8)
    ensures var hi, lo := Join([a, b, c, d], [e, f, g, h]), Join([i, j, k, l], [m, n, o, 0]);
            var h1, l1 := High4(hi, lo), Low4(hi, lo);
            && High4(h1, l1) == Join([0, a, b, c], [d, e, f, g])
            && Low4(h1, l1) == Join([h, i, j, k], [l, m, n, o])
  {}

  lemma MulP4Linear(a: Elem, b: Elem)
    ensures MulP4(Add(a, b)) == Add(MulP4(a), MulP4(b))
  {
    hide Add, MulP;
    MulPLinear(a, b);
    MulPLinear(MulP(a), MulP(b));
    MulPLinear(MulP(MulP(a)), MulP(MulP(b)));
    MulPLinear(MulP(MulP(MulP(a))), MulP(MulP(MulP(b))));
  }

  // A nibble, a nibble after another one, and a byte as the leftmost bits of a word.
  function TopNibble(n: bv8): bv64 { (n as bv64) << 60 }

  function NextNibble(n: bv8): bv64 { ((n as bv64) << 60) >> 4 }

  function TopByte(b: bv8): bv64 { (b as bv64) << 56 }

  lemma PowersOfP()
    ensures MulP(One) == Elem(0x4000000000000000, 0) && MulP(MulP(One)) == Elem(0x2000000000000000, 0)
    ensures MulP(MulP(MulP(One))) == Elem(0x1000000000000000, 0)
  {}

  lemma SmallOfOne(n: bv8)
    requires n < 16
    ensures Small(n, One) == Elem(TopNibble(n), 0)
  {
    hide MulP;
    PowersOfP();
    match n
    case 0 => case 1 => case 2 => case 3 => case 4 => case 5 => case 6 => case 7 =>
    case 8 => case 9 => case 10 => case 11 => case 12 => case 13 => case 14 => case _ =>
  }

  lemma WordTop(a: bv8, b: bv8, c: bv8, d: bv8, e: bv8, f: bv8, g: bv8, h: bv8)
    ensures Xor64(Join([0, b, c, d], [e, f, g, h]), TopByte(a)) == Join([a, b, c, d], [e, f, g, h])
  {}

  lemma NibbleDown(n: bv8)
    requires n < 16
    ensures MulP4(Elem(TopNibble(n), 0)) == Elem(NextNibble(n), 0)
  {
    hide MulP4;
    Shoup(Elem(TopNibble(n), 0));
  }

  // A byte on the left of fifteen others, a nibble at a time.
  lemma ByteOnLeft(b: bv8, y: seq<bv8>)
    requires |y| == 15
    ensures Add(Add(BlockElem([0] + y), MulP4(Small(b & 0xf, One))), Small(b >> 4, One)) == BlockElem([b] + y)
  {
    hide MulP4, Small, Join, Xor64, BlockElem, TopByte;
    BlockWords(b, y);
    BlockWords(0, y);
    WordTop(b, y[0], y[1], y[2], y[3], y[4], y[5], y[6]);
    ByteHalves(b);
    ByteSum(b, b & 0xf, b >> 4, BlockElem([0] + y));
  }

  lemma ByteHalves(b: bv8)
    ensures b & 0xf < 16 && b >> 4 < 16
    ensures Xor64(NextNibble(b & 0xf), TopNibble(b >> 4)) == TopByte(b)
  {}

  lemma ByteSum(b: bv8, low: bv8, high: bv8, z: Elem)
    requires low < 16 && high < 16 && Xor64(NextNibble(low), TopNibble(high)) == TopByte(b)
    ensures Add(Add(z, MulP4(Small(low, One))), Small(high, One)) == Elem(Xor64(z.hi, TopByte(b)), z.lo)
  {
    hide MulP4, Small, Xor64, TopNibble, NextNibble, TopByte;
    SmallOfOne(high);
    SmallOfOne(low);
    NibbleDown(low);
    XorAssociative(z.hi, NextNibble(low), TopNibble(high));
    XorCommutative(z.lo, 0);
  }

  // The bytes of x from m on, as the coefficients of P^0 and up.
  lemma {:induction false} TailOfOne(x: Block, m: nat)
    requires m <= 16
    ensures Tail(x, 8 * m, One) == BlockElem(x[m..] + Zeros(m))
    decreases 16 - m
  {
    hide Tail, MulP4, Small, Add, BlockElem, Nibble;
    if m == 16 {
      ZeroElem();
      assert x[m..] + Zeros(16) == ZeroBlock;
      TailEnd(x);
    } else {
      var y: Block := x[m + 1..] + Zeros(m + 1);
      TailOfOne(x, m + 1);
      Horner(x, 2 * m, One);
      Horner(x, 2 * m + 1, One);
      MulP4Linear(MulP4(Tail(x, 8 * m + 8, One)), Small(Nibble(x, 2 * m + 1), One));
      ByteShift(y);
      NibblesOfByte(x, m);
      ByteOnLeft(x[m], y[..15]);
      assert x[m..] + Zeros(m) == [x[m]] + y[..15];
    }
  }

  lemma TailEnd(x: Block)
    ensures Tail(x, 128, One) == Zero
  {}

  lemma NibblesOfByte(x: Block, m: nat)
    requires m < 16
    ensures Nibble(x, 2 * m) == x[m] >> 4 && Nibble(x, 2 * m + 1) == x[m] & 0xf
  {}

  lemma ZeroElem()
    ensures BlockElem(ZeroBlock) == Zero
  {}

  lemma MulOne(a: Elem)
    ensures Mul(a, One) == a
  {
    hide Tail, BlockElem, ElemBlock;
    var x := ElemBlock(a);
    TailOfOne(x, 0);
    assert x[0..] + Zeros(0) == x;
    ElemRoundTrip(a);
  }

  // ----- the laws of a commutative ring -----

  lemma MulAdd(a: Elem, b: Elem, c: Elem)
    ensures Mul(a, Add(b, c)) == Add(Mul(a, b), Mul(a, c))
    ensures Mul(a, MulP(b)) == MulP(Mul(a, b))
    ensures Mul(a, Zero) == Zero
  {
    hide Add, MulP, Tail;
    TailAdd(ElemBlock(a), 0, b, c);
    TailMulP(ElemBlock(a), 0, b);
    TailZero(ElemBlock(a), 0);
  }

  // A product goes into the sum that makes up another one.
  lemma {:induction false} MulTail(a: Elem, x: Block, i: nat, v: Elem)
    requires i <= 128
    ensures Mul(a, Tail(x, i, v)) == Tail(x, i, Mul(a, v))
    decreases 128 - i
  {
    hide Add, MulP, Bit, Mul;
    if i == 128 {
      MulAdd(a, Zero, Zero);
    } else {
      MulAdd(a, v, Zero);
      MulAdd(a, When(Bit(x, i), v), Tail(x, i + 1, MulP(v)));
      MulTail(a, x, i + 1, MulP(v));
    }
  }

  lemma MulCommutes(a: Elem, b: Elem)
    ensures Mul(a, b) == Mul(b, a)
  {
    hide Tail, ElemBlock;
    MulOne(a);
    MulOne(b);
    MulTail(b, ElemBlock(a), 0, One);
  }

  lemma MulAssociates(a: Elem, b: Elem, c: Elem)
    ensures Mul(Mul(a, b), c) == Mul(a, Mul(b, c))
  {
    hide Tail, ElemBlock;
    MulCommutes(Mul(a, b), c);
    MulCommutes(b, c);
    MulTail(c, ElemBlock(a), 0, b);
  }

  lemma ProductIsMul(x: Block, h: Elem)
    ensures Product(x, h) == Mul(BlockElem(x), h)
  {
    hide Product, Tail, BlockElem, ElemBlock;
    BlockRoundTrip(x);
    ProductIsTail(x, h);
  }

  lemma MulPIsMul(a: Elem)
    ensures Mul(MulP(One), a) == MulP(a)
  {
    hide Mul, MulP;
    MulAdd(a, One, Zero);
    MulOne(a);
    MulCommutes(a, MulP(One));
  }
}
