// Squares of field elements, which are linear and computed word by word.
module GcmSquare {
  import opened Bytes
  import opened Gf128
  import opened GcmSpec
  import opened GcmRing

  // ----- squares -----

  // The low 32 bits of a word, each moved to twice its distance from the left.
  function Spread(x: bv64): bv64
  {
    var a := x & 0xffffffff;
    var b := (a | (a << 16)) & 0x0000ffff0000ffff;
    var c := (b | (b << 8)) & 0x00ff00ff00ff00ff;
    var d := (c | (c << 4)) & 0x0f0f0f0f0f0f0f0f;
    var e := (d | (d << 2)) & 0x3333333333333333;
    ((e | (e << 1)) & 0x5555555555555555) << 1
  }

  function SpreadTop(x: bv64): bv64
  {
    Spread(x >> 32)
  }

  // The square of a word as a polynomial, before any reduction.
  function Wide(x: bv64): Elem
  {
    Elem(SpreadTop(x), Spread(x))
  }

  // A word times 1 + P + P^2 + P^7: what stays in the word, and what spills over into the next.
  function Stays(x: bv64): bv64 { Sum4(x, Half(x), Shift2(x), Shift7(x)) }

  function Sum4(a: bv64, b: bv64, c: bv64, d: bv64): bv64 { a ^ b ^ c ^ d }

  function Shift2(x: bv64): bv64 { x >> 2 }

  function Shift7(x: bv64): bv64 { x >> 7 }

  function Spills(x: bv64): bv64
  {
    (x << 63) ^ (x << 62) ^ (x << 57)
  }

  // Multiplication by P^128 = 1 + P + P^2 + P^7; what spills over at the end wraps around.
  function MulP128(a: Elem): Elem
  {
    Elem(Stays(Xor64(a.hi, Spills(a.lo))), Xor64(Spills(a.hi), Stays(a.lo)))
  }

  function Square(a: Elem): Elem
  {
    Add(Wide(a.hi), MulP128(Wide(a.lo)))
  }

  lemma SpreadLinear(x: bv64, y: bv64)
    ensures Spread(Xor64(x, y)) == Xor64(Spread(x), Spread(y))
  {}

  lemma SpreadTopLinear(x: bv64, y: bv64)
    ensures SpreadTop(Xor64(x, y)) == Xor64(SpreadTop(x), SpreadTop(y))
  {}

  lemma WideLinear(x: bv64, y: bv64)
    ensures Wide(Xor64(x, y)) == Add(Wide(x), Wide(y))
  {
    hide Spread, SpreadTop, Xor64;
    SpreadLinear(x, y);
    SpreadTopLinear(x, y);
  }

  lemma Shift2Linear(x: bv64, y: bv64)
    ensures Shift2(Xor64(x, y)) == Xor64(Shift2(x), Shift2(y))
  {}

  lemma Shift7Linear(x: bv64, y: bv64)
    ensures Shift7(Xor64(x, y)) == Xor64(Shift7(x), Shift7(y))
  {}

  lemma FourSum(a: bv64, b: bv64, c: bv64, d: bv64)
    ensures Xor64(Xor64(a, b), Xor64(c, d)) == Sum4(a, b, c, d)
  {}

  lemma StaysIs(x: bv64)
    ensures Stays(x) == Xor64(Xor64(x, Half(x)), Xor64(Shift2(x), Shift7(x)))
  {
    hide Half, Shift2, Shift7, Xor64, Sum4;
    FourSum(x, Half(x), Shift2(x), Shift7(x));
  }

  lemma StaysLinear(x: bv64, y: bv64)
    ensures Stays(Xor64(x, y)) == Xor64(Stays(x), Stays(y))
  {
    hide Stays, Half, Shift2, Shift7, Xor64;
    StaysIs(x);
    StaysIs(y);
    StaysIs(Xor64(x, y));
    HalfLinear(x, y);
    Shift2Linear(x, y);
    Shift7Linear(x, y);
    XorMedial(x, y, Half(x), Half(y));
    XorMedial(Shift2(x), Shift2(y), Shift7(x), Shift7(y));
    XorMedial(Xor64(x, Half(x)), Xor64(y, Half(y)), Xor64(Shift2(x), Shift7(x)), Xor64(Shift2(y), Shift7(y)));
  }

  lemma SpillsLinear(x: bv64, y: bv64)
    ensures Spills(Xor64(x, y)) == Xor64(Spills(x), Spills(y))
  {}

  lemma MulP128Linear(a: Elem, b: Elem)
    ensures MulP128(Add(a, b)) == Add(MulP128(a), MulP128(b))
  {
    hide Stays, Spills, Xor64;
    SpillsLinear(a.lo, b.lo);
    XorMedial(a.hi, b.hi, Spills(a.lo), Spills(b.lo));
    StaysLinear(Xor64(a.hi, Spills(a.lo)), Xor64(b.hi, Spills(b.lo)));
    SpillsLinear(a.hi, b.hi);
    StaysLinear(a.lo, b.lo);
    XorMedial(Spills(a.hi), Spills(b.hi), Stays(a.lo), Stays(b.lo));
  }

  lemma SquareAdd(a: Elem, b: Elem)
    ensures Square(Add(a, b)) == Add(Square(a), Square(b))
  {
    hide Wide, MulP128, Xor64;
    WideLinear(a.hi, b.hi);
    WideLinear(a.lo, b.lo);
    MulP128Linear(Wide(a.lo), Wide(b.lo));
    AddMedial(Wide(a.hi), Wide(b.hi), MulP128(Wide(a.lo)), MulP128(Wide(b.lo)));
  }

  // ----- the square of a multiple of P -----

  const P128 := Elem(0xe100000000000000, 0)

  predicate Odd(x: bv64) { x & 1 == 1 }

  // Halving a word moves its spread bits by two, and bit 32 comes in.
  lemma SpreadDown(x: bv64)
    ensures Spread(Half(x)) == (Spread(x) >> 2) | ((x >> 32) << 63)
  {}

  lemma HalfOfTop(x: bv64)
    ensures Half(x) >> 32 == Half(x >> 32) && (x >> 32) >> 32 == 0
  {}

  lemma SpreadTopHalf(x: bv64)
    ensures SpreadTop(Half(x)) == SpreadTop(x) >> 2
  {
    hide Spread, Half;
    HalfOfTop(x);
    SpreadDown(x >> 32);
  }

  lemma LastTwo(s: bv64, y: bv64)
    requires s & 1 == 0 && (s & 2 == 2 <==> Odd(y))
    ensures s << 62 == y << 63
  {}

  lemma SpreadHalf(x: bv64)
    ensures Spread(Half(x)) == (SpreadTop(x) << 62) | (Spread(x) >> 2)
  {
    hide Spread, Half, Odd;
    SpreadDown(x);
    SpreadLast(x >> 32);
    LastTwo(Spread(x >> 32), x >> 32);
  }

  lemma SpreadLast(x: bv64)
    ensures Spread(x) & 1 == 0 && (Spread(x) & 2 == 2 <==> Odd(x))
  {}

  lemma EvenShift(s: bv64, t: bv64)
    requires t & 1 == 0
    ensures High(s, t) == Half(s)
  {
    hide Half, Xor64;
    XorCommutative(Half(s), 0);
  }

  lemma ShiftedLow(s: bv64, t: bv64)
    ensures Low(Half(s), Low(s, t)) == (s << 62) | (t >> 2)
  {}

  lemma ShiftedFold(s: bv64, t: bv64)
    ensures Half(Half(s)) == s >> 2
    ensures Fold(Low(s, t)) == if t & 2 == 2 then P128.hi else 0
  {}

  lemma TwoShifts(s: bv64, t: bv64)
    requires t & 1 == 0
    ensures MulP(MulP(Elem(s, t))) == Elem(Xor64(s >> 2, if t & 2 == 2 then P128.hi else 0), (s << 62) | (t >> 2))
  {
    hide Half, Fold, Low, Xor64;
    EvenShift(s, t);
    ShiftedLow(s, t);
    ShiftedFold(s, t);
  }

  // Two shifts of a spread word are the spread of one shift, and the bit that falls out.
  lemma WideHalf(x: bv64)
    ensures MulP(MulP(Wide(x))) == Add(Wide(Half(x)), When(Odd(x), P128))
  {
    hide MulP, Spread, SpreadTop, Xor64, Half, Odd;
    SpreadTopHalf(x);
    SpreadHalf(x);
    SpreadLast(x);
    TwoShifts(SpreadTop(x), Spread(x));
    XorCommutative(Spread(Half(x)), 0);
  }

  lemma WideBit(x: bv64)
    ensures Wide(x << 63) == When(Odd(x), One)
  {}

  lemma WideFold(x: bv64)
    ensures Wide(Fold(x)) == When(Odd(x), MulP128(P128))
  {}

  lemma MulP128One(x: bv64)
    ensures MulP128(When(Odd(x), One)) == When(Odd(x), P128)
    ensures MulP128(When(Odd(x), P128)) == When(Odd(x), MulP128(P128))
  {}

  function Top(x: bv64): bv64 { x << 63 }

  lemma MulPHigh(h: bv64)
    ensures MulP(Elem(h, 0)) == Elem(Half(h), Top(h))
  {}

  lemma MulPLow(l: bv64)
    ensures MulP(Elem(0, l)) == Elem(Fold(l), Half(l))
  {}

  lemma StaysHalf(x: bv64)
    ensures Stays(Half(x)) == Half(Stays(x))
  {
    hide Stays, Half, Shift2, Shift7, Xor64;
    StaysIs(x);
    StaysIs(Half(x));
    ShiftHalf(x);
    HalfLinear(Xor64(x, Half(x)), Xor64(Shift2(x), Shift7(x)));
    HalfLinear(x, Half(x));
    HalfLinear(Shift2(x), Shift7(x));
  }

  lemma ShiftHalf(x: bv64)
    ensures Shift2(Half(x)) == Half(Shift2(x)) && Shift7(Half(x)) == Half(Shift7(x))
  {}

  lemma SpillsTop(x: bv64)
    ensures Spills(Top(x)) == 0 && Fold(Spills(x)) == 0
  {}

  lemma SpillsHalf(x: bv64)
    ensures Xor64(Spills(Half(x)), Stays(Top(x))) == Low(Stays(x), Spills(x))
  {}

  lemma MulP128OfHigh(h: bv64)
    ensures MulP128(MulP(Elem(h, 0))) == MulP(MulP128(Elem(h, 0)))
  {
    hide Half, Top, Stays, Spills, Fold, Xor64, Low;
    MulPHigh(h);
    StaysHalf(h);
    SpillsTop(h);
    SpillsHalf(h);
    XorCommutative(Half(h), 0);
    XorCommutative(h, 0);
    XorCommutative(Spills(h), 0);
    XorCommutative(Half(Stays(h)), 0);
    NoneOfZero();
  }

  lemma NoneOfZero()
    ensures Stays(0) == 0 && Spills(0) == 0
  {}

  lemma WrapBits(x: bv64)
    ensures Xor64(Fold(x), Spills(Half(x))) == Xor64(Half(Spills(x)), Top(Stays(x)))
  {}

  lemma StaysTop(x: bv64)
    ensures Stays(Top(x)) == Fold(x)
  {}

  lemma WrapHalf(x: bv64)
    ensures Stays(Xor64(Fold(x), Spills(Half(x)))) == High(Stays(Spills(x)), Stays(x))
  {
    hide Fold, Spills, Stays, Half, Top, Xor64;
    WrapBits(x);
    StaysLinear(Half(Spills(x)), Top(Stays(x)));
    StaysHalf(Spills(x));
    StaysTop(Stays(x));
  }

  lemma SpillsFold(x: bv64)
    ensures Spills(Fold(x)) == 0 && Half(Stays(x)) == Low(Stays(Spills(x)), Stays(x))
  {}

  lemma MulP128OfLow(l: bv64)
    ensures MulP128(MulP(Elem(0, l))) == MulP(MulP128(Elem(0, l)))
  {
    hide Half, Stays, Spills, Fold, Xor64, Low, High;
    MulPLow(l);
    StaysHalf(l);
    WrapHalf(l);
    SpillsFold(l);
    XorCommutative(Spills(l), 0);
    XorCommutative(Stays(l), 0);
    XorCommutative(Half(Stays(l)), 0);
    NoneOfZero();
  }

  lemma Halves(a: Elem)
    ensures a == Add(Elem(a.hi, 0), Elem(0, a.lo))
  {}

  lemma MulP128Commutes(a: Elem)
    ensures MulP128(MulP(a)) == MulP(MulP128(a))
  {
    hide MulP, MulP128, Add;
    var h, l := Elem(a.hi, 0), Elem(0, a.lo);
    Halves(a);
    MulP128OfHigh(a.hi);
    MulP128OfLow(a.lo);
    MulPLinear(h, l);
    MulP128Linear(h, l);
    MulP128Linear(MulP(h), MulP(l));
    MulPLinear(MulP128(h), MulP128(l));
  }

  lemma LowIsSum(h: bv64, l: bv64)
    ensures Low(h, l) == Xor64(h << 63, Half(l))
  {}

  lemma SquareMulP(a: Elem)
    ensures Square(MulP(a)) == MulP(MulP(Square(a)))
  {
    hide Wide, MulP128, Add, When, Half, Fold, Xor64, Low;
    var h, l, b := Wide(Half(a.hi)), Wide(Half(a.lo)), Wide(Fold(a.lo));
    var x, y := When(Odd(a.hi), P128), When(Odd(a.lo), P128);
    // the left-hand side
    LowIsSum(a.hi, a.lo);
    WideLinear(Half(a.hi), Fold(a.lo));
    WideLinear(a.hi << 63, Half(a.lo));
    WideBit(a.hi);
    WideFold(a.lo);
    MulP128Linear(Wide(a.hi << 63), l);
    MulP128One(a.hi);
    MulP128One(a.lo);
    assert Square(MulP(a)) == Add(Add(h, b), Add(x, MulP128(l)));
    // the right-hand side
    RightSide(a);
    WideHalf(a.hi);
    WideHalf(a.lo);
    MulP128Linear(l, y);
    AddMedial(h, b, x, MulP128(l));
    AddLaws(b, MulP128(l), Zero);
  }

  lemma RightSide(a: Elem)
    ensures MulP(MulP(Square(a))) == Add(MulP(MulP(Wide(a.hi))), MulP128(MulP(MulP(Wide(a.lo)))))
  {
    hide Wide, MulP, MulP128, Add;
    var h, l := Wide(a.hi), Wide(a.lo);
    MulPLinear(h, MulP128(l));
    MulPLinear(MulP(h), MulP(MulP128(l)));
    MulP128Commutes(l);
    MulP128Commutes(MulP(l));
  }

  // ----- what squaring fixes -----

  // The two words of a square.
  function SquareHigh(h: bv64, l: bv64): bv64
  {
    Xor64(SpreadTop(h), Stays(Xor64(SpreadTop(l), Spills(Spread(l)))))
  }

  function SquareLow(h: bv64, l: bv64): bv64
  {
    Xor64(Spread(h), Xor64(Spills(SpreadTop(l)), Stays(Spread(l))))
  }

  lemma FixedLast(h: bv64, l: bv64)
    requires SquareHigh(h, l) == h && SquareLow(h, l) == l
    ensures l & 1 == 0
  {}

  lemma FixedLow(h: bv64, l: bv64)
    requires SquareHigh(h, l) == h && SquareLow(h, l) == l && l & 1 == 0
    ensures l == 0
  {}

  lemma FixedHigh(h: bv64)
    requires SquareHigh(h, 0) == h && SquareLow(h, 0) == 0
    ensures h == 0 || h == 0x8000000000000000
  {}

  // Squaring fixes nothing but 0 and 1.
  lemma SquareFixes(a: Elem)
    requires Square(a) == a
    ensures a == Zero || a == One
  {
    hide Spread, SpreadTop, Stays, Spills, Xor64;
    FixedLast(a.hi, a.lo);
    FixedLow(a.hi, a.lo);
    FixedHigh(a.hi);
  }

  lemma SquareOne()
    ensures Square(One) == One && Square(Zero) == Zero
  {}

  // (x + y)^2 = x^2 + y^2.
  lemma SquareOfSum(a: Elem, b: Elem)
    ensures Mul(Add(a, b), Add(a, b)) == Add(Mul(a, a), Mul(b, b))
  {
    hide Mul, Add;
    var s := Add(a, b);
    MulAdd(s, a, b);
    MulCommutes(s, a);
    MulCommutes(s, b);
    MulAdd(a, a, b);
    MulAdd(b, a, b);
    MulCommutes(a, b);
    var m := Mul(a, b);
    AddLaws(Mul(a, a), m, Add(m, Mul(b, b)));
    AddLaws(m, m, Mul(b, b));
    AddSelf(m);
    AddLaws(Mul(b, b), Zero, Zero);
  }

  lemma SquareOfMulP(v: Elem)
    ensures Mul(MulP(v), MulP(v)) == MulP(MulP(Mul(v, v)))
  {
    hide Mul, MulP, Add;
    MulAdd(MulP(v), v, Zero);
    MulCommutes(MulP(v), v);
    MulAdd(v, v, Zero);
  }

  lemma {:induction false} SquareTail(x: Block, i: nat, v: Elem)
    requires i <= 128 && Square(v) == Mul(v, v)
    ensures var t := Tail(x, i, v); Square(t) == Mul(t, t)
    decreases 128 - i
  {
    hide Mul, MulP, Add, Bit, Square;
    SquareOne();
    if i == 128 {
      MulAdd(Zero, Zero, Zero);
    } else {
      SquareMulP(v);
      SquareOfMulP(v);
      SquareTail(x, i + 1, MulP(v));
      MulAdd(Zero, Zero, Zero);
      SquareAdd(When(Bit(x, i), v), Tail(x, i + 1, MulP(v)));
      SquareOfSum(When(Bit(x, i), v), Tail(x, i + 1, MulP(v)));
    }
  }

  lemma SquareIsMul(a: Elem)
    ensures Square(a) == Mul(a, a)
  {
    hide Square, Tail, ElemBlock;
    SquareOne();
    MulOne(a);
    MulOne(One);
    SquareTail(ElemBlock(a), 0, One);
  }
}
