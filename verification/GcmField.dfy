// The ring of field elements has no zero divisors, so the polynomial of SP 800-38D is
// irreducible: the 128th power of squaring is the identity, and squaring fixes only 0 and 1.
module GcmField {
  import opened Bytes
  import opened Gf128
  import opened GcmSpec
  import opened GcmRing
  import opened GcmSquare

  // ----- powers of squaring -----

  // a to the power 2^n.
  function Frob(n: nat, a: Elem): Elem
    decreases n
  {
    if n == 0 then a else Frob(n - 1, Square(a))
  }

  lemma {:induction false} FrobFrob(m: nat, n: nat, a: Elem)
    ensures Frob(m + n, a) == Frob(n, Frob(m, a))
    decreases m
  {
    hide Square;
    if m > 0 {
      FrobFrob(m - 1, n, Square(a));
    }
  }

  lemma {:induction false} FrobAdd(n: nat, a: Elem, b: Elem)
    ensures Frob(n, Add(a, b)) == Add(Frob(n, a), Frob(n, b))
    decreases n
  {
    hide Square, Add;
    if n > 0 {
      SquareAdd(a, b);
      FrobAdd(n - 1, Square(a), Square(b));
    }
  }

  lemma {:induction false} FrobZero(n: nat)
    ensures Frob(n, Zero) == Zero
    decreases n
  {
    hide Square;
    if n > 0 {
      SquareOne();
      FrobZero(n - 1);
    }
  }

  lemma {:induction false} FrobMul(n: nat, a: Elem, b: Elem)
    ensures Frob(n, Mul(a, b)) == Mul(Frob(n, a), Frob(n, b))
    decreases n
  {
    hide Square, Mul;
    if n > 0 {
      SquareIsMul(a);
      SquareIsMul(b);
      SquareIsMul(Mul(a, b));
      MulAssociates(a, b, Mul(a, b));
      MulCommutes(b, Mul(a, b));
      MulAssociates(a, b, b);
      MulAssociates(a, a, Mul(b, b));
      FrobMul(n - 1, Square(a), Square(b));
    }
  }

  function Eight(a: Elem): Elem
  {
    Square(Square(Square(Square(Square(Square(Square(Square(a))))))))
  }

  lemma FrobEight(a: Elem)
    ensures Frob(8, a) == Eight(a)
  {
    hide Square;
    var b := Square(Square(Square(Square(a))));
    assert Frob(4, a) == Frob(2, Square(Square(a))) == b;
    assert Frob(4, b) == Frob(2, Square(Square(b))) == Eight(a);
    FrobFrob(4, 4, a);
  }

  // P to the power 2^(16k).
  function PowerOfP(k: nat): Elem
    requires k <= 8
  {
    match k
    case 0 => Elem(0x4000000000000000, 0x0000000000000000)
    case 1 => Elem(0x0ef71e969867f188, 0x8690888888008008)
    case 2 => Elem(0x54a0a9601f5eee84, 0x180dcbba9950b41e)
    case 3 => Elem(0xbf81d79b681eb87f, 0x1840494ee86d68c7)
    case 4 => Elem(0x6f9945a9e519a722, 0x9d4c1ad657f8a686)
    case 5 => Elem(0x5e27788143e15420, 0xee953b2d4cabc59e)
    case 6 => Elem(0xdebb046b71ae153b, 0x531960a283fb4702)
    case 7 => Elem(0xab26eafada1fbd62, 0x43b422e8d8c25ee3)
    case _ => Elem(0x4000000000000000, 0x0000000000000000)
  }

  lemma FirstPower()
    ensures Eight(Elem(0x4000000000000000, 0)) == Elem(0xa802000000000000, 0)
  {}

  lemma SecondPower()
    ensures Eight(Elem(0xa802000000000000, 0)) == Elem(0x0ef71e969867f188, 0x8690888888008008)
  {}

  lemma Power1()
    ensures Eight(Eight(Elem(0x4000000000000000, 0x0000000000000000))) == Elem(0x0ef71e969867f188, 0x8690888888008008)
  {
    hide Eight;
    FirstPower();
    SecondPower();
  }

  lemma Power2()
    ensures Eight(Eight(Elem(0x0ef71e969867f188, 0x8690888888008008))) == Elem(0x54a0a9601f5eee84, 0x180dcbba9950b41e)
  {}

  lemma Power3()
    ensures Eight(Eight(Elem(0x54a0a9601f5eee84, 0x180dcbba9950b41e))) == Elem(0xbf81d79b681eb87f, 0x1840494ee86d68c7)
  {}

  lemma Power4()
    ensures Eight(Eight(Elem(0xbf81d79b681eb87f, 0x1840494ee86d68c7))) == Elem(0x6f9945a9e519a722, 0x9d4c1ad657f8a686)
  {}

  lemma Power5()
    ensures Eight(Eight(Elem(0x6f9945a9e519a722, 0x9d4c1ad657f8a686))) == Elem(0x5e27788143e15420, 0xee953b2d4cabc59e)
  {}

  lemma Power6()
    ensures Eight(Eight(Elem(0x5e27788143e15420, 0xee953b2d4cabc59e))) == Elem(0xdebb046b71ae153b, 0x531960a283fb4702)
  {}

  lemma Power7()
    ensures Eight(Eight(Elem(0xdebb046b71ae153b, 0x531960a283fb4702))) == Elem(0xab26eafada1fbd62, 0x43b422e8d8c25ee3)
  {}

  lemma Power8()
    ensures Eight(Eight(Elem(0xab26eafada1fbd62, 0x43b422e8d8c25ee3))) == Elem(0x4000000000000000, 0x0000000000000000)
  {}

  lemma SixteenSquares(k: nat)
    requires k < 8
    ensures Frob(16, PowerOfP(k)) == PowerOfP(k + 1)
  {
    hide Eight, Frob;
    FrobEight(PowerOfP(k));
    FrobEight(Eight(PowerOfP(k)));
    FrobFrob(8, 8, PowerOfP(k));
    match k
    case 0 => Power1();
    case 1 => Power2();
    case 2 => Power3();
    case 3 => Power4();
    case 4 => Power5();
    case 5 => Power6();
    case 6 => Power7();
    case _ => Power8();
  }

  lemma {:induction false} FrobOfP(k: nat)
    requires k <= 8
    ensures Frob(16 * k, MulP(One)) == PowerOfP(k)
  {
    hide Square, Frob;
    if k == 0 {
      FrobNone(MulP(One));
    } else {
      FrobOfP(k - 1);
      SixteenSquares(k - 1);
      FrobFrob(16 * (k - 1), 16, MulP(One));
    }
  }

  lemma FrobNone(a: Elem)
    ensures Frob(0, a) == a
  {}

  lemma PReturns()
    ensures Frob(128, MulP(One)) == MulP(One)
  {
    hide Frob;
    FrobOfP(8);
  }

  // Once P comes back after 128 squarings, so does every element.
  lemma {:induction false} FrobTail(x: Block, i: nat, v: Elem)
    requires i <= 128 && Frob(128, v) == v
    ensures Frob(128, Tail(x, i, v)) == Tail(x, i, v)
    decreases 128 - i
  {
    hide Mul, MulP, Add, Bit, Square, Frob;
    FrobZero(128);
    if i < 128 {
      var p := MulP(One);
      PReturns();
      MulPIsMul(v);
      FrobMul(128, p, v);
      FrobTail(x, i + 1, MulP(v));
      FrobAdd(128, When(Bit(x, i), v), Tail(x, i + 1, MulP(v)));
    }
  }

  lemma {:induction false} FrobOne(n: nat)
    ensures Frob(n, One) == One
    decreases n
  {
    hide Square;
    if n > 0 {
      SquareOne();
      FrobOne(n - 1);
    }
  }

  lemma FrobReturns(a: Elem)
    ensures Frob(128, a) == a
  {
    hide Square, Frob, Tail, ElemBlock;
    FrobOne(128);
    MulOne(a);
    FrobTail(ElemBlock(a), 0, One);
  }

  // ----- no zero divisors -----

  // n times from a to a^2 + a.
  function Nil(n: nat, a: Elem): Elem
    decreases n
  {
    if n == 0 then a else Nil(n - 1, Add(Square(a), a))
  }

  lemma {:induction false} NilNil(m: nat, n: nat, a: Elem)
    ensures Nil(m + n, a) == Nil(n, Nil(m, a))
    decreases m
  {
    hide Square, Add;
    if m > 0 {
      NilNil(m - 1, n, Add(Square(a), a));
    }
  }

  function Exp2(k: nat): nat
  {
    if k == 0 then 1 else 2 * Exp2(k - 1)
  }

  // 2^k times is a^(2^(2^k)) + a.
  lemma {:induction false} NilPower(k: nat, a: Elem)
    ensures Nil(Exp2(k), a) == Add(Frob(Exp2(k), a), a)
    decreases k
  {
    hide Square, Add;
    if k > 0 {
      hide Nil, Frob;
      var m := Exp2(k - 1);
      var f := Frob(m, a);
      NilNil(m, m, a);
      NilPower(k - 1, a);
      NilPower(k - 1, Add(f, a));
      FrobAdd(m, f, a);
      FrobFrob(m, m, a);
      AddLaws(Frob(m, f), f, Add(f, a));
      AddLaws(f, f, a);
      AddSelf(f);
      AddLaws(a, Zero, Zero);
    }
  }

  lemma NilVanishes(a: Elem)
    ensures Nil(128, a) == Zero
  {
    hide Nil, Frob, Add;
    assert Exp2(7) == 128;
    NilPower(7, a);
    FrobReturns(a);
    AddSelf(a);
  }

  lemma {:induction false} Cancels(n: nat, a: Elem, h: Elem)
    requires a != Zero && Nil(n, a) == Zero && Mul(a, h) == Zero
    ensures h == Zero
    decreases n
  {
    hide Square, Add, Mul;
    var b := Add(Square(a), a);
    if b == Zero {
      SumIsZero(Square(a), a);
      SquareFixes(a);
      MulCommutes(a, h);
      MulOne(h);
    } else {
      SquareIsMul(a);
      MulAssociates(a, a, h);
      MulAdd(a, Zero, Zero);
      MulAdd(h, Square(a), a);
      MulCommutes(h, b);
      MulCommutes(h, a);
      MulCommutes(h, Square(a));
      AddSelf(Zero);
      Cancels(n - 1, b, h);
    }
  }

  lemma SumIsZero(a: Elem, b: Elem)
    ensures Add(a, b) == Zero <==> a == b
  {
    hide Xor64;
    XorZero(a.hi, b.hi);
    XorZero(a.lo, b.lo);
  }

  lemma XorZero(x: bv64, y: bv64)
    ensures Xor64(x, y) == 0 <==> x == y
  {}

  // A product is zero only if a factor is.
  lemma NoZeroDivisors(a: Elem, h: Elem)
    ensures Mul(a, h) == Zero <==> a == Zero || h == Zero
  {
    hide Nil, Mul;
    if Mul(a, h) == Zero && a != Zero {
      NilVanishes(a);
      Cancels(128, a, h);
    }
    MulAdd(a, Zero, Zero);
    MulAdd(h, Zero, Zero);
    MulCommutes(a, h);
  }
}
