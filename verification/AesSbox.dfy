// The substitution table of share/crypto/aes.c against section 5.1.1 of FIPS 197: the affine
// transformation of the multiplicative inverse.
module AesSbox {
  import opened Bytes
  import opened Gf256
  import opened AesTables

  function When(c: bool, a: bv8): bv8 { if c then a else 0 }

  function Multiples(a: bv8, b: bv8, c: bv8, d: bv8, p: bool, q: bool, r: bool, t: bool): bv8
  {
    Sum(When(p, a), When(q, b), When(r, c), When(t, d))
  }

  // The product in GF(2^8), one bit of the second factor at a time.
  function Product(a: bv8, b: bv8): bv8
  {
    var a1 := XTime(a);
    var a2 := XTime(a1);
    var a3 := XTime(a2);
    var a4 := XTime(a3);
    var a5 := XTime(a4);
    var a6 := XTime(a5);
    var a7 := XTime(a6);
    XorByte(Multiples(a, a1, a2, a3, b & 0x01 != 0, b & 0x02 != 0, b & 0x04 != 0, b & 0x08 != 0),
            Multiples(a4, a5, a6, a7, b & 0x10 != 0, b & 0x20 != 0, b & 0x40 != 0, b & 0x80 != 0))
  }

  function RotateLeft(b: bv8, k: nat): bv8
    requires 0 < k < 8
  {
    match k
    case 1 => (b << 1) | (b >> 7)
    case 2 => (b << 2) | (b >> 6)
    case 3 => (b << 3) | (b >> 5)
    case 4 => (b << 4) | (b >> 4)
    case 5 => (b << 5) | (b >> 3)
    case 6 => (b << 6) | (b >> 2)
    case _ => (b << 7) | (b >> 1)
  }

  // Bit i of the image is the sum of bits i, i+4, i+5, i+6 and i+7 of b and of the constant 0x63.
  function Affine(b: bv8): bv8
  {
    b ^ RotateLeft(b, 1) ^ RotateLeft(b, 2) ^ RotateLeft(b, 3) ^ RotateLeft(b, 4) ^ 0x63
  }

  function UnAffine(b: bv8): bv8
  {
    RotateLeft(b, 1) ^ RotateLeft(b, 3) ^ RotateLeft(b, 6) ^ 0x05
  }

  // An inverse of x, and 0 for 0.
  predicate IsInverse(x: bv8, y: bv8)
  {
    if x == 0 then y == 0 else Product(x, y) == 1
  }

  lemma AffineUndone(x: bv8)
    ensures Affine(UnAffine(FSb(x))) == FSb(x)
  {}

  lemma UnAffineInverts(x: bv8)
    ensures IsInverse(x, UnAffine(FSb(x)))
  {
    hide IsInverse, UnAffine, FSb;
    if x < 0x40 {
      FirstQuarter(x);
    } else if x < 0x80 {
      SecondQuarter(x);
    } else if x < 0xc0 {
      ThirdQuarter(x);
    } else {
      LastQuarter(x);
    }
  }

  // A quarter of the table at a time, by columns.
  lemma FirstQuarter(x: bv8)
    requires x < 0x40
    ensures IsInverse(x, UnAffine(FSb(x)))
  {
    match x & 0xf
    case 0 => case 1 => case 2 => case 3 => case 4 => case 5 => case 6 => case 7 =>
    case 8 => case 9 => case 10 => case 11 => case 12 => case 13 => case 14 => case _ =>
  }

  lemma SecondQuarter(x: bv8)
    requires 0x40 <= x < 0x80
    ensures IsInverse(x, UnAffine(FSb(x)))
  {
    match x & 0xf
    case 0 => case 1 => case 2 => case 3 => case 4 => case 5 => case 6 => case 7 =>
    case 8 => case 9 => case 10 => case 11 => case 12 => case 13 => case 14 => case _ =>
  }

  lemma ThirdQuarter(x: bv8)
    requires 0x80 <= x < 0xc0
    ensures IsInverse(x, UnAffine(FSb(x)))
  {
    match x & 0xf
    case 0 => case 1 => case 2 => case 3 => case 4 => case 5 => case 6 => case 7 =>
    case 8 => case 9 => case 10 => case 11 => case 12 => case 13 => case 14 => case _ =>
  }

  lemma LastQuarter(x: bv8)
    requires 0xc0 <= x
    ensures IsInverse(x, UnAffine(FSb(x)))
  {
    match x & 0xf
    case 0 => case 1 => case 2 => case 3 => case 4 => case 5 => case 6 => case 7 =>
    case 8 => case 9 => case 10 => case 11 => case 12 => case 13 => case 14 => case _ =>
  }

  // Main result: every entry of the table is the affine image of an inverse of its index.
  lemma SboxIsAffineInverse(x: bv8)
    ensures exists y :: IsInverse(x, y) && FSb(x) == Affine(y)
  {
    hide IsInverse, Affine, UnAffine, FSb;
    AffineUndone(x);
    UnAffineInverts(x);
    assert IsInverse(x, UnAffine(FSb(x))) && FSb(x) == Affine(UnAffine(FSb(x)));
  }
}
