// Galois/Counter Mode byte by byte: the key stream by counter values, blocks as coefficients of
// polynomials, and GHASH as the value of a polynomial at the subkey.
module GcmBytes {
  import opened Bytes
  import opened Memory
  import opened Numbers
  import opened Gf128
  import opened GcmSpec
  import opened GcmRing

  // ----- the key stream -----

  // Byte i is masked with byte i % 16 of the encryption of the counter advanced i / 16 times.
  lemma {:induction false} GctrAt(E: Block -> Block, icb: Block, s: seq<bv8>, i: nat)
    requires i < |s|
    ensures Gctr(E, icb, s)[i] == XorByte(s[i], E(IncN(icb, i / 16))[i % 16])
    decreases |s|
  {
    hide Inc32, XorByte;
    var n := Min(16, |s|);
    if i >= 16 {
      GctrAt(E, Inc32(icb), s[n..], i - 16);
    }
  }

  // Main result: with an initialisation vector of twelve bytes, byte i of the ciphertext is that
  // of the plaintext masked with the encryption of the vector followed by the number 2 + i / 16.
  lemma CiphertextAt(E: Block -> Block, iv: seq<bv8>, p: seq<bv8>, i: nat, b: Block)
    requires |iv| == 12 && i < |p| && b[..12] == iv
    requires BigEndian(b[12..]) == (2 + i / 16) % 0x1_0000_0000
    ensures Ciphertext(E, iv, p)[i] == XorByte(p[i], E(b)[i % 16])
  {
    hide BigEndian, IncN, Gctr, XorByte, Inc32;
    var j := J0(E, iv);
    var icb := Inc32(j);
    var c := IncN(icb, i / 16);
    FirstCounter(E, iv);
    Inc32Reads(j);
    IncNReads(icb, i / 16);
    GctrAt(E, icb, p, i);
    BigEndianInjective(b[12..], c[12..]);
    assert b == b[..12] + b[12..] && c == c[..12] + c[12..];
  }

  lemma FirstCounter(E: Block -> Block, iv: seq<bv8>)
    requires |iv| == 12
    ensures J0(E, iv)[..12] == iv && BigEndian(J0(E, iv)[12..]) == 1
  {
    hide BigEndian, Digit;
    assert J0(E, iv)[12..] == [0, 0, 0, 1];
    BigEndian4(0, 0, 0, 1);
    DigitOf(0);
    DigitOf(1);
  }

  predicate IsZero(z: Block)
  {
    forall k :: 0 <= k < 16 ==> z[k] == 0
  }

  lemma ZeroIs(z: Block)
    requires IsZero(z)
    ensures z == ZeroBlock
  {}

  // Main result: the tag is the hash, under the encryption of the zero block, of associated data
  // and ciphertext, each filled up with zeros, and of the two numbers of bits, masked with the
  // encryption of the pre-counter block (section 7.1).
  lemma TagAt(E: Block -> Block, iv: seq<bv8>, a: seq<bv8>, c: seq<bv8>, t: nat, i: nat, z: Block, l: Block)
    requires i < t <= 16 && 8 * |iv| < TWO64 && 8 * |a| < TWO64 && 8 * |c| < TWO64
    requires IsZero(z) && BigEndian(l[..8]) == 8 * |a| && BigEndian(l[8..]) == 8 * |c|
    requires |Pad16(a) + Pad16(c) + l| % 16 == 0
    ensures Tag(E, iv, a, c, t)[i] == XorByte(Ghash(E(z), z, Pad16(a) + Pad16(c) + l)[i], E(J0(E, iv))[i])
  {
    hide J0, Ghash, XorByte, Gctr, BigEndian, Lengths, Pad16, IsZero;
    ZeroIs(z);
    LengthsRead(|a|, |c|, l);
    Associative(Pad16(a), Pad16(c), l);
    GctrAt(E, J0(E, iv), Ghash(Subkey(E), ZeroBlock, TagInput(a, c)), i);
  }

  // For any other length of the vector the pre-counter block is a hash.
  lemma HashedCounter(E: Block -> Block, iv: seq<bv8>, z: Block, l: Block)
    requires |iv| != 12 && 8 * |iv| < TWO64 && IsZero(z) && BigEndian(l) == 8 * |iv|
    requires |Pad16(iv) + l| % 16 == 0
    ensures J0(E, iv) == Ghash(E(z), z, Pad16(iv) + l)
  {
    hide Ghash, BigEndian, IvLength, Pad16, IsZero;
    ZeroIs(z);
    IvLengthReads(|iv|);
    BigEndianInjective(l, IvLength(|iv|));
  }

  // Filling up adds fewer than sixteen zeros.
  lemma PadReads(s: seq<bv8>)
    ensures |s| <= |Pad16(s)| < |s| + 16 && Pad16(s)[..|s|] == s
    ensures forall k :: |s| <= k < |Pad16(s)| ==> Pad16(s)[k] == 0
  {}

  // ----- coefficients -----

  // Bit k of a word, the leftmost being bit 0.
  predicate WordBit(w: bv64, k: bv64)
    requires k < 64
  {
    (w << k) & 0x8000000000000000 != 0
  }

  // The coefficient of P^i.
  predicate Coefficient(e: Elem, i: bv64)
    requires i < 128
  {
    if i < 64 then WordBit(e.hi, i) else WordBit(e.lo, i - 64)
  }

  lemma WordBitXor(x: bv64, y: bv64, k: bv64)
    requires k < 64
    ensures WordBit(Xor64(x, y), k) == (WordBit(x, k) != WordBit(y, k))
  {}

  lemma AddCoefficients(a: Elem, b: Elem, i: bv64)
    requires i < 128
    ensures Coefficient(Add(a, b), i) <==> Coefficient(a, i) != Coefficient(b, i)
  {
    hide WordBit, Xor64;
    if i < 64 {
      WordBitXor(a.hi, b.hi, i);
    } else {
      WordBitXor(a.lo, b.lo, i - 64);
    }
  }

  lemma HalfBits(h: bv64, k: bv64)
    requires k < 64
    ensures WordBit(Half(h), k) == (k > 0 && WordBit(h, k - 1))
  {}

  lemma FoldBits(l: bv64, k: bv64)
    requires k < 64
    ensures WordBit(Fold(l), k) == (WordBit(l, 63) && (k == 0 || k == 1 || k == 2 || k == 7))
  {}

  lemma LowBits(h: bv64, l: bv64, k: bv64)
    requires k < 64
    ensures WordBit(Low(h, l), k) == if k == 0 then WordBit(h, 63) else WordBit(l, k - 1)
  {}

  // Multiplication by P moves every coefficient up by one, and P^128 is 1 + P + P^2 + P^7.
  lemma MulPCoefficients(e: Elem, i: bv64)
    requires i < 128
    ensures Coefficient(MulP(e), i)
            <==> (i > 0 && Coefficient(e, i - 1)) != (Coefficient(e, 127) && (i == 0 || i == 1 || i == 2 || i == 7))
  {
    hide WordBit, Xor64, Half, Fold, Low;
    if i < 64 {
      HalfBits(e.hi, i);
      FoldBits(e.lo, i);
      WordBitXor(Half(e.hi), Fold(e.lo), i);
    } else {
      LowBits(e.hi, e.lo, i - 64);
    }
  }

  lemma OneCoefficients(i: bv64)
    requires i < 128
    ensures Coefficient(One, i) <==> i == 0
  {}

  // ----- bits of a block -----

  function Power2(k: nat): (p: nat)
    ensures p > 0
  {
    if k == 0 then 1 else 2 * Power2(k - 1)
  }

  lemma MaskShift(b: bv8, k: nat)
    requires k < 7
    ensures b & BitMask(k) != 0 <==> (b >> 1) & BitMask(k + 1) != 0
  {}

  lemma HalfTwice(x: nat, p: nat)
    requires p > 0
    ensures x / (2 * p) == x / 2 / p
  {
    var q, r := x / 2 / p, x / 2 % p;
    assert x / 2 == p * q + r;
    assert x == 2 * p * q + (2 * r + x % 2) && 2 * r + x % 2 < 2 * p;
    Quotient(x, 2 * p, q, 2 * r + x % 2);
  }

  lemma Quotient(x: nat, d: nat, q: nat, r: nat)
    requires r < d && x == d * q + r
    ensures x / d == q
  {
    var e := x / d - q;
    assert x == d * (x / d) + x % d;
    assert d * e == r - x % d;
    SmallMultiple(d, e);
  }

  lemma SmallMultiple(d: nat, e: int)
    requires 0 < d * e + d < 2 * d
    ensures e == 0
  {}

  lemma {:induction false} MaskReads(b: bv8, k: nat)
    requires k < 8
    ensures b & BitMask(k) != 0 <==> Digit(b) / Power2(7 - k) % 2 == 1
    decreases 7 - k
  {
    hide Digit;
    HalfDigit(b);
    if k < 7 {
      hide BitMask;
      MaskShift(b, k);
      MaskReads(b >> 1, k + 1);
      HalfTwice(Digit(b), Power2(6 - k));
    }
  }

  // The bits of a block are numbered from the most significant one of its first byte, and the
  // element it is read as is the sum of the powers of P at the bits that are set.
  lemma BlockIsSum(x: Block, i: nat)
    requires i < 128
    ensures Bit(x, i) <==> Digit(x[i / 8]) / Power2(7 - i % 8) % 2 == 1
    ensures BlockElem(x) == Tail(x, 0, One)
  {
    hide Tail, BlockElem;
    MaskReads(x[i / 8], i % 8);
    TailOfOne(x, 0);
    assert x[0..] + Zeros(0) == x;
  }

  // ----- GHASH as a polynomial -----

  lemma WordXor(a: bv8, b: bv8, c: bv8, d: bv8, a': bv8, b': bv8, c': bv8, d': bv8)
    ensures BytesWord([XorByte(a, a'), XorByte(b, b'), XorByte(c, c'), XorByte(d, d')])
            == Xor64(BytesWord([a, b, c, d]), BytesWord([a', b', c', d']))
  {}

  function Upper(u: bv64): bv64 { u << 32 }

  lemma UpperLinear(u: bv64, v: bv64)
    ensures Upper(Xor64(u, v)) == Xor64(Upper(u), Upper(v))
  {}

  lemma HalvesAdd(u: bv64, v: bv64, w: bv64)
    requires IsWord(v) && w == (u << 32) | v
    ensures w == Xor64(Upper(u), v)
  {}

  lemma JoinIs(x: seq<bv8>, y: seq<bv8>)
    requires |x| == |y| == 4
    ensures Join(x, y) == Xor64(Upper(BytesWord(x)), BytesWord(y))
  {
    hide BytesWord, IsWord, Upper, Xor64;
    assert y == [y[0], y[1], y[2], y[3]];
    WordReturns(y[0], y[1], y[2], y[3]);
    HalvesAdd(BytesWord(x), BytesWord(y), Join(x, y));
  }

  lemma BytesXor(x: seq<bv8>, y: seq<bv8>)
    requires |x| == |y| == 4
    ensures BytesWord(Xor(x, y)) == Xor64(BytesWord(x), BytesWord(y))
  {
    hide BytesWord, Xor64, XorByte;
    WordXor(x[0], x[1], x[2], x[3], y[0], y[1], y[2], y[3]);
    assert x == [x[0], x[1], x[2], x[3]] && y == [y[0], y[1], y[2], y[3]];
    var z := Xor(x, y);
    assert z == [XorByte(x[0], y[0]), XorByte(x[1], y[1]), XorByte(x[2], y[2]), XorByte(x[3], y[3])];
  }

  lemma JoinXor(x: seq<bv8>, y: seq<bv8>, u: seq<bv8>, v: seq<bv8>)
    requires |x| == |y| == |u| == |v| == 4
    ensures Join(Xor(x, u), Xor(y, v)) == Xor64(Join(x, y), Join(u, v))
  {
    hide BytesWord, Xor64, XorByte, Upper, Join;
    JoinIs(x, y);
    JoinIs(u, v);
    JoinIs(Xor(x, u), Xor(y, v));
    BytesXor(x, u);
    BytesXor(y, v);
    UpperLinear(BytesWord(x), BytesWord(u));
    XorMedial(Upper(BytesWord(x)), Upper(BytesWord(u)), BytesWord(y), BytesWord(v));
  }

  lemma BlockXor(x: Block, y: Block)
    ensures BlockElem(Xor(x, y)) == Add(BlockElem(x), BlockElem(y))
  {
    hide Join, Xor64, XorByte;
    JoinXor(x[0..4], x[4..8], y[0..4], y[4..8]);
    JoinXor(x[8..12], x[12..16], y[8..12], y[12..16]);
    var z := Xor(x, y);
    assert z[0..4] == Xor(x[0..4], y[0..4]) && z[4..8] == Xor(x[4..8], y[4..8]);
    assert z[8..12] == Xor(x[8..12], y[8..12]) && z[12..16] == Xor(x[12..16], y[12..16]);
  }

  function PowerOf(h: Elem, n: nat): Elem
  {
    if n == 0 then One else Mul(h, PowerOf(h, n - 1))
  }

  function BlockAt(s: seq<bv8>, j: nat): Block
    requires 16 * j + 16 <= |s|
  {
    s[16 * j..16 * j + 16]
  }

  // The sum of the first k blocks of s, block j times h to the power top - j.
  function Polynomial(h: Elem, s: seq<bv8>, k: nat, top: nat): Elem
    requires 16 * k <= |s| && k <= top + 1
  {
    if k == 0 then Zero
    else Add(Polynomial(h, s, k - 1, top), Mul(BlockElem(BlockAt(s, k - 1)), PowerOf(h, top - (k - 1))))
  }

  lemma {:induction false} PolynomialTimes(h: Elem, s: seq<bv8>, k: nat, top: nat)
    requires 16 * k <= |s| && k <= top + 1
    ensures Mul(Polynomial(h, s, k, top), h) == Polynomial(h, s, k, top + 1)
  {
    hide Mul, Add, BlockElem, BlockAt;
    MulCommutes(Polynomial(h, s, k, top), h);
    if k == 0 {
      MulAdd(h, Zero, Zero);
    } else {
      var b, q := BlockElem(BlockAt(s, k - 1)), PowerOf(h, top - (k - 1));
      PolynomialTimes(h, s, k - 1, top);
      MulAdd(h, Polynomial(h, s, k - 1, top), Mul(b, q));
      MulCommutes(h, Polynomial(h, s, k - 1, top));
      MulCommutes(h, Mul(b, q));
      MulAssociates(b, q, h);
      MulCommutes(q, h);
      assert top + 1 - (k - 1) == top - (k - 1) + 1;
    }
  }

  lemma {:induction false} PolynomialPrefix(h: Elem, a: seq<bv8>, b: seq<bv8>, k: nat, top: nat)
    requires 16 * k <= |a| && k <= top + 1
    ensures Polynomial(h, a + b, k, top) == Polynomial(h, a, k, top)
  {
    hide Mul, Add, BlockElem;
    if k > 0 {
      PolynomialPrefix(h, a, b, k - 1, top);
      assert BlockAt(a + b, k - 1) == BlockAt(a, k - 1);
    }
  }

  // Main result: the hash of m blocks is the value of the polynomial whose coefficients they
  // are, the first with the power m of the subkey and the last with the subkey itself.
  lemma {:induction false} GhashIsPolynomial(h: Block, s: seq<bv8>, m: nat)
    requires |s| == 16 * m
    ensures BlockElem(Ghash(h, ZeroBlock, s)) == Polynomial(BlockElem(h), s, m, m)
  {
    hide GMul, BlockElem, Mul, Add, PowerOf, BlockAt;
    if m == 0 {
      assert s == [];
      ZeroElem();
    } else {
      var e, n := BlockElem(h), 16 * m - 16;
      var a: seq<bv8>, b: Block := s[..n], s[n..];
      var y := Ghash(h, ZeroBlock, a);
      assert s == a + b;
      GhashIsPolynomial(h, a, m - 1);
      GhashAppend(h, ZeroBlock, a, b);
      GhashOne(h, y, b);
      ProductElem(Xor(y, b), h);
      BlockXor(y, b);
      MulCommutes(Add(BlockElem(y), BlockElem(b)), e);
      MulAdd(e, BlockElem(y), BlockElem(b));
      MulCommutes(e, BlockElem(y));
      MulCommutes(e, BlockElem(b));
      PolynomialTimes(e, a, m - 1, m - 1);
      PolynomialPrefix(e, a, b, m - 1, m);
      LastTerm(e, s, m);
    }
  }

  lemma LastTerm(h: Elem, s: seq<bv8>, m: nat)
    requires |s| == 16 * m && m > 0
    ensures Polynomial(h, s, m, m)
            == Add(Polynomial(h, s, m - 1, m), Mul(BlockElem(s[16 * m - 16..]), h))
  {
    hide Mul, Add, BlockElem;
    assert BlockAt(s, m - 1) == s[16 * m - 16..];
    assert PowerOf(h, 1) == Mul(h, PowerOf(h, 0)) == Mul(h, One);
    MulOne(h);
  }

  lemma ProductElem(x: Block, h: Block)
    ensures BlockElem(GMul(x, h)) == Mul(BlockElem(x), BlockElem(h))
  {
    hide Product, BlockElem, ElemBlock, Mul;
    ElemRoundTrip(Product(x, BlockElem(h)));
    ProductIsMul(x, BlockElem(h));
  }
}
