// The field GF(2^128) as section 6.3 of NIST SP 800-38D presents it: a block is read as a
// bit string whose leftmost bit is the coefficient of P^0.
module Gf128 {
  import opened Bytes

  // A field element as two 64-bit words: the high-order bit of hi holds the coefficient of
  // P^0 and the low-order bit of lo that of P^127.
  datatype Elem = Elem(hi: bv64, lo: bv64)

  const Zero := Elem(0, 0)

  function Xor64(x: bv64, y: bv64): bv64
  {
    x ^ y
  }

  function Add(a: Elem, b: Elem): Elem
  {
    Elem(Xor64(a.hi, b.hi), Xor64(a.lo, b.lo))
  }

  // Multiplication by P: one right shift of the 128 bits, and 11100001 || 0^120 is added
  // when the coefficient of P^127 falls out.
  function MulP(v: Elem): Elem
  {
    Elem(High(v.hi, v.lo), Low(v.hi, v.lo))
  }

  function High(hi: bv64, lo: bv64): bv64
  {
    Xor64(Half(hi), Fold(lo))
  }

  function Half(v: bv64): bv64 { v >> 1 }

  // What the bit shifted out folds back into the high word.
  function Fold(lo: bv64): bv64
  {
    if lo & 1 == 1 then 0xe100000000000000 else 0
  }

  function Low(hi: bv64, lo: bv64): bv64
  {
    (hi << 63) | (lo >> 1)
  }

  function MulP4(v: Elem): Elem
  {
    MulP(MulP(MulP(MulP(v))))
  }

  function When(c: bool, v: Elem): Elem
  {
    if c then v else Zero
  }

  // Bit i of a block, bit 0 being the most significant bit of byte 0.
  predicate Bit(x: Block, i: nat)
    requires i < 128
  {
    x[i / 8] & BitMask(i % 8) != 0
  }

  function BitMask(k: nat): bv8
    requires k < 8
  {
    match k
    case 0 => 0x80 case 1 => 0x40 case 2 => 0x20 case 3 => 0x10
    case 4 => 0x08 case 5 => 0x04 case 6 => 0x02 case 7 => 0x01
  }

  // The pair (Z_i, V_i) of Algorithm 1 of SP 800-38D.
  function ZV(x: Block, h: Elem, i: nat): (Elem, Elem)
    requires i <= 128
  {
    if i == 0 then (Zero, h)
    else
      var (z, v) := ZV(x, h, i - 1);
      (if Bit(x, i - 1) then Add(z, v) else z, MulP(v))
  }

  // The product x * h.
  function Product(x: Block, h: Elem): Elem
  {
    ZV(x, h, 128).0
  }

  // The part of the product contributed by bits i.. of x, with v standing for h * P^i.
  function Tail(x: Block, i: nat, v: Elem): Elem
    requires i <= 128
    decreases 128 - i
  {
    if i == 128 then Zero else Add(When(Bit(x, i), v), Tail(x, i + 1, MulP(v)))
  }

  // ----- linearity -----

  lemma XorAssociative(x: bv64, y: bv64, z: bv64)
    ensures Xor64(Xor64(x, y), z) == Xor64(x, Xor64(y, z))
  {
    calc {
      Xor64(Xor64(x, y), z);
      Xor64(x, y) ^ z;
      (x ^ y) ^ z;
      x ^ (y ^ z);
      x ^ Xor64(y, z);
      Xor64(x, Xor64(y, z));
    }
  }

  lemma XorCommutative(x: bv64, y: bv64)
    ensures Xor64(x, y) == Xor64(y, x)
    ensures Xor64(x, 0) == Xor64(0, x) == x
  {}

  lemma AddLaws(a: Elem, b: Elem, c: Elem)
    ensures Add(a, b) == Add(b, a)
    ensures Add(a, Zero) == Add(Zero, a) == a
    ensures Add(Add(a, b), c) == Add(a, Add(b, c))
  {
    hide Xor64;
    XorAssociative(a.hi, b.hi, c.hi);
    XorAssociative(a.lo, b.lo, c.lo);
    XorCommutative(a.hi, b.hi);
    XorCommutative(a.lo, b.lo);
  }

  lemma HalfLinear(x: bv64, y: bv64)
    ensures Half(Xor64(x, y)) == Xor64(Half(x), Half(y))
  {}

  lemma FoldLinear(u: bv64, v: bv64)
    ensures Fold(Xor64(u, v)) == Xor64(Fold(u), Fold(v))
  {
    assert ((u ^ v) & 1 == 1) == ((u & 1 == 1) != (v & 1 == 1));
  }

  lemma XorMedial(a: bv64, b: bv64, c: bv64, d: bv64)
    ensures Xor64(Xor64(a, b), Xor64(c, d)) == Xor64(Xor64(a, c), Xor64(b, d))
  {
    hide Xor64;
    XorAssociative(a, b, Xor64(c, d));
    XorAssociative(b, c, d);
    XorCommutative(b, c);
    XorAssociative(c, b, d);
    XorAssociative(a, c, Xor64(b, d));
  }

  lemma HighLinear(x: bv64, y: bv64, u: bv64, v: bv64)
    ensures High(Xor64(x, y), Xor64(u, v)) == Xor64(High(x, u), High(y, v))
  {
    hide Xor64, Half, Fold;
    HalfLinear(x, y);
    FoldLinear(u, v);
    XorMedial(Half(x), Half(y), Fold(u), Fold(v));
  }

  lemma LowLinear(x: bv64, y: bv64, u: bv64, v: bv64)
    ensures Low(Xor64(x, y), Xor64(u, v)) == Xor64(Low(x, u), Low(y, v))
  {
    assert ((x ^ y) << 63) | ((u ^ v) >> 1) == ((x << 63) | (u >> 1)) ^ ((y << 63) | (v >> 1));
  }

  lemma MulPLinear(a: Elem, b: Elem)
    ensures MulP(Add(a, b)) == Add(MulP(a), MulP(b))
    ensures MulP(Zero) == Zero
  {
    hide Xor64, High, Low;
    HighLinear(a.hi, b.hi, a.lo, b.lo);
    LowLinear(a.hi, b.hi, a.lo, b.lo);
    MulPZero();
  }

  lemma MulPZero()
    ensures MulP(Zero) == Zero
  {}

  // ----- the product as a sum read from either end -----

  lemma {:induction false} ProductSplits(x: Block, h: Elem, i: nat)
    requires i <= 128
    ensures Tail(x, 0, h) == Add(ZV(x, h, i).0, Tail(x, i, ZV(x, h, i).1))
  {
    hide Add, MulP, Bit;
    if i == 0 {
      AddLaws(Tail(x, 0, h), Zero, Zero);
    } else {
      ProductSplits(x, h, i - 1);
      var (z, v) := ZV(x, h, i - 1);
      AddLaws(z, v, Tail(x, i, MulP(v)));
      AddLaws(Tail(x, i, MulP(v)), Zero, Zero);
    }
  }

  lemma ProductIsTail(x: Block, h: Elem)
    ensures Product(x, h) == Tail(x, 0, h)
  {
    hide Add, MulP, Bit;
    ProductSplits(x, h, 128);
    AddLaws(Product(x, h), Zero, Zero);
  }

  lemma {:induction false} TailMulP(x: Block, i: nat, v: Elem)
    requires i <= 128
    ensures Tail(x, i, MulP(v)) == MulP(Tail(x, i, v))
    decreases 128 - i
  {
    hide Add, MulP, Bit;
    if i == 128 {
      MulPLinear(Zero, Zero);
    } else {
      TailMulP(x, i + 1, MulP(v));
      MulPLinear(When(Bit(x, i), v), Tail(x, i + 1, MulP(v)));
    }
  }

  // ----- four bits at a time -----

  // Nibble k of a block, nibble 0 being the high half of byte 0.
  function Nibble(x: Block, k: nat): bv8
    requires k < 32
  {
    if k % 2 == 0 then x[k / 2] >> 4 else x[k / 2] & 0xf
  }

  // n times h, where bit 3 of n is the coefficient of P^0.
  function Small(n: bv8, h: Elem): Elem
  {
    Add(When(n & 8 != 0, h),
        Add(When(n & 4 != 0, MulP(h)),
            Add(When(n & 2 != 0, MulP(MulP(h))), When(n & 1 != 0, MulP(MulP(MulP(h)))))))
  }

  lemma NibbleBits(b: bv8)
    ensures (b >> 4) & 8 != 0 <==> b & 0x80 != 0
    ensures (b >> 4) & 4 != 0 <==> b & 0x40 != 0
    ensures (b >> 4) & 2 != 0 <==> b & 0x20 != 0
    ensures (b >> 4) & 1 != 0 <==> b & 0x10 != 0
    ensures (b & 0xf) & 8 != 0 <==> b & 0x08 != 0
    ensures (b & 0xf) & 4 != 0 <==> b & 0x04 != 0
    ensures (b & 0xf) & 2 != 0 <==> b & 0x02 != 0
    ensures (b & 0xf) & 1 != 0 <==> b & 0x01 != 0
  {}

  lemma NibbleIsFourBits(x: Block, k: nat)
    requires k < 32
    ensures Bit(x, 4 * k) <==> Nibble(x, k) & 8 != 0
    ensures Bit(x, 4 * k + 1) <==> Nibble(x, k) & 4 != 0
    ensures Bit(x, 4 * k + 2) <==> Nibble(x, k) & 2 != 0
    ensures Bit(x, 4 * k + 3) <==> Nibble(x, k) & 1 != 0
  {
    NibbleBits(x[k / 2]);
    if k % 2 == 0 {
      assert 4 * k == 8 * (k / 2);
    } else {
      assert 4 * k == 8 * (k / 2) + 4;
    }
  }

  lemma TailStep(x: Block, i: nat, v: Elem)
    requires i < 128
    ensures Tail(x, i, v) == Add(When(Bit(x, i), v), Tail(x, i + 1, MulP(v)))
  {}

  // Horner's rule: one nibble of x costs one table entry and one multiplication by P^4.
  lemma Horner(x: Block, k: nat, h: Elem)
    requires k < 32
    ensures Tail(x, 4 * k, h) == Add(MulP4(Tail(x, 4 * k + 4, h)), Small(Nibble(x, k), h))
  {
    hide Add, MulP, Bit, Nibble, Tail;
    var i := 4 * k;
    var p1 := MulP(h);
    var p2 := MulP(p1);
    var p3 := MulP(p2);
    NibbleIsFourBits(x, k);
    var n := Nibble(x, k);
    var a, b, c, d := When(n & 8 != 0, h), When(n & 4 != 0, p1), When(n & 2 != 0, p2), When(n & 1 != 0, p3);
    var e := Tail(x, i + 4, MulP(p3));
    TailStep(x, i, h);
    TailStep(x, i + 1, p1);
    TailStep(x, i + 2, p2);
    TailStep(x, i + 3, p3);
    AddLaws(a, Add(b, Add(c, d)), e);
    AddLaws(b, Add(c, d), e);
    AddLaws(c, d, e);
    AddLaws(Small(n, h), e, Zero);
    TailMulP(x, i + 4, h);
    TailMulP(x, i + 4, p1);
    TailMulP(x, i + 4, p2);
    TailMulP(x, i + 4, p3);
  }
}
