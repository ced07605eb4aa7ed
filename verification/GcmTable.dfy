// The 4-bit tables of share/crypto/gcm.c: Shoup's method against the bitwise product.
module GcmTable {
  import opened Gf128

  // last4[x] is x times P^128, folded into the top 16 bits by the caller's shift.
  function Last4(x: bv64): bv64
    requires x < 16
  {
    match x
    case 0 => 0x0000 case 1 => 0x1c20 case 2 => 0x3840 case 3 => 0x2460
    case 4 => 0x7080 case 5 => 0x6ca0 case 6 => 0x48c0 case 7 => 0x54e0
    case 8 => 0xe100 case 9 => 0xfd20 case 10 => 0xd940 case 11 => 0xc560
    case 12 => 0x9180 case 13 => 0x8da0 case 14 => 0xa9c0 case 15 => 0xb5e0
  }

  function High4(zh: bv64, zl: bv64): bv64
  {
    Xor64(zh >> 4, Last4(zl & 0xf) << 48)
  }

  function Low4(zh: bv64, zl: bv64): bv64
  {
    (zh << 60) | (zl >> 4)
  }

  lemma Low4IsFourShifts(h: bv64, l: bv64)
    ensures var h1, l1 := High(h, l), Low(h, l);
            var h2, l2 := High(h1, l1), Low(h1, l1);
            Low4(h, l) == Low(High(h2, l2), Low(h2, l2))
  {}

  // Four shifts of the high word with something added after each.
  lemma FourSums(h: bv64, a: bv64, b: bv64, c: bv64, d: bv64)
    ensures Xor64(Half(Xor64(Half(Xor64(Half(Xor64(Half(h), a)), b)), c)), d)
            == Xor64(Half(Half(Half(Half(h)))), Xor64(Xor64(Half(Half(Half(a))), Half(Half(b))), Xor64(Half(c), d)))
  {
    hide Xor64, Half;
    HalfLinear(Half(h), a);
    HalfLinear(Xor64(Half(Half(h)), Half(a)), b);
    HalfLinear(Half(Half(h)), Half(a));
    HalfLinear(Xor64(Xor64(Half(Half(Half(h))), Half(Half(a))), Half(b)), c);
    HalfLinear(Xor64(Half(Half(Half(h))), Half(Half(a))), Half(b));
    HalfLinear(Half(Half(Half(h))), Half(Half(a)));
    var h4, a3, b2 := Half(Half(Half(Half(h)))), Half(Half(Half(a))), Half(Half(b));
    XorAssociative(h4, a3, b2);
    XorAssociative(Xor64(h4, Xor64(a3, b2)), Half(c), d);
    XorAssociative(h4, Xor64(a3, b2), Xor64(Half(c), d));
  }

  lemma FourHalves(h: bv64)
    ensures Half(Half(Half(Half(h)))) == h >> 4
  {}

  // The bits that fall out one after another are the low nibble.
  lemma FallingBits(h: bv64, h1: bv64, h2: bv64, l: bv64)
    ensures Fold(Low(h, l)) == Fold(l >> 1)
    ensures Fold(Low(h1, Low(h, l))) == Fold(l >> 2)
    ensures Fold(Low(h2, Low(h1, Low(h, l)))) == Fold(l >> 3)
  {}

  lemma NibbleFolds(l: bv64)
    ensures Last4(l & 0xf) << 48
            == Xor64(Xor64(Half(Half(Half(Fold(l)))), Half(Half(Fold(l >> 1)))),
               Xor64(Half(Fold(l >> 2)), Fold(l >> 3)))
  {
    match l & 0xf
    case 0 => case 1 => case 2 => case 3 => case 4 => case 5 => case 6 => case 7 =>
    case 8 => case 9 => case 10 => case 11 => case 12 => case 13 => case 14 => case _ =>
  }

  lemma High4IsFourShifts(h: bv64, l: bv64)
    ensures var h1, l1 := High(h, l), Low(h, l);
            var h2, l2 := High(h1, l1), Low(h1, l1);
            High4(h, l) == High(High(h2, l2), Low(h2, l2))
  {
    hide Xor64, Half, Fold, Low, Last4;
    var h1, l1 := High(h, l), Low(h, l);
    var h2, l2 := High(h1, l1), Low(h1, l1);
    FallingBits(h, h1, h2, l);
    NibbleFolds(l);
    FourHalves(h);
    FourSums(h, Fold(l), Fold(l >> 1), Fold(l >> 2), Fold(l >> 3));
  }

  // One table step of four bits is four single-bit multiplications by P.
  lemma Shoup(z: Elem)
    ensures Elem(High4(z.hi, z.lo), Low4(z.hi, z.lo)) == MulP4(z)
  {
    hide High, Low, High4, Low4;
    High4IsFourShifts(z.hi, z.lo);
    Low4IsFourShifts(z.hi, z.lo);
  }

  // ----- the table entries -----

  function Power(k: nat, h: Elem): Elem
  {
    if k == 0 then h else MulP(Power(k - 1, h))
  }

  // Entry n of the table for h, bit 3 of n standing for P^0.
  function Entry(n: nat, h: Elem): Elem
    requires n < 16
  {
    Small(NibbleValue(n), h)
  }

  function NibbleValue(n: nat): bv8
    requires n < 16
  {
    match n
    case 0 => 0 case 1 => 1 case 2 => 2 case 3 => 3 case 4 => 4 case 5 => 5 case 6 => 6 case 7 => 7
    case 8 => 8 case 9 => 9 case 10 => 10 case 11 => 11 case 12 => 12 case 13 => 13 case 14 => 14 case 15 => 15
  }

  lemma NibbleIndex(b: bv8)
    requires b < 16
    ensures 0 <= b as int < 16
    ensures NibbleValue(b as int) == b
  {}

  // The entries at powers of two, and every other entry as a sum of two smaller ones.
  lemma PowerEntries(h: Elem)
    ensures Entry(0, h) == Zero
    ensures Entry(8, h) == h
    ensures Entry(4, h) == MulP(h)
    ensures Entry(2, h) == MulP(MulP(h))
    ensures Entry(1, h) == MulP(MulP(MulP(h)))
  {
    hide Add, MulP;
    AddLaws(Zero, Zero, Zero);
    AddLaws(h, Zero, Zero);
    AddLaws(MulP(h), Zero, Zero);
    AddLaws(MulP(MulP(h)), Zero, Zero);
    AddLaws(MulP(MulP(MulP(h))), Zero, Zero);
  }

  lemma EntrySum(i: nat, j: nat, h: Elem)
    requires i in {2, 4, 8} && 1 <= j < i
    ensures i + j < 16
    ensures Entry(i + j, h) == Add(Entry(i, h), Entry(j, h))
  {
    hide Add, MulP;
    PowerEntries(h);
    var p, q, r := MulP(h), MulP(MulP(h)), MulP(MulP(MulP(h)));
    AddLaws(Zero, Zero, Zero);
    AddLaws(p, Zero, Zero);
    AddLaws(q, Zero, Zero);
    AddLaws(r, Zero, Zero);
    AddLaws(Add(q, r), Zero, Zero);
    AddLaws(Add(p, q), Zero, Zero);
    AddLaws(Add(p, r), Zero, Zero);
    AddLaws(Add(p, Add(q, r)), Zero, Zero);
  }
}
