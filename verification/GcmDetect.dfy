// What GHASH tells apart: the effect of a change confined to one block.
module GcmDetect {
  import opened Bytes
  import opened Memory
  import opened Gf128
  import opened GcmSpec
  import opened GcmRing
  import opened GcmField

  // With a hash subkey that is not zero, different blocks have different products.
  lemma GMulInjective(x: Block, y: Block, h: Block)
    ensures GMul(x, h) == GMul(y, h) <==> x == y || BlockElem(h) == Zero
  {
    hide Mul, Add, BlockElem, ElemBlock, Product;
    var a, b, e := BlockElem(x), BlockElem(y), BlockElem(h);
    BlockRoundTrip(x);
    BlockRoundTrip(y);
    ProductIsMul(x, e);
    ProductIsMul(y, e);
    ElemRoundTrip(Mul(a, e));
    ElemRoundTrip(Mul(b, e));
    MulAdd(e, a, b);
    MulCommutes(e, a);
    MulCommutes(e, b);
    MulCommutes(e, Add(a, b));
    SumIsZero(Mul(a, e), Mul(b, e));
    SumIsZero(a, b);
    NoZeroDivisors(Add(a, b), e);
  }

  lemma XorInjective(z: Block, x: Block, y: Block)
    ensures Xor(z, x) == Xor(z, y) <==> x == y
    ensures Xor(x, z) == Xor(y, z) <==> x == y
  {
    hide XorByte;
    XorCommutes(z, x);
    XorCommutes(z, y);
    XorTwice(x, z);
    XorTwice(y, z);
  }

  lemma {:induction false} GhashFrom(h: Block, u: Block, v: Block, s: seq<bv8>)
    requires |s| % 16 == 0
    ensures Ghash(h, u, s) == Ghash(h, v, s) <==> u == v || (s != [] && BlockElem(h) == Zero)
    decreases |s|
  {
    hide GMul, BlockElem, Xor;
    if s != [] {
      var b: Block := s[..16];
      XorInjective(b, u, v);
      GMulInjective(Xor(u, b), Xor(v, b), h);
      GhashFrom(h, GMul(Xor(u, b), h), GMul(Xor(v, b), h), s[16..]);
    }
  }

  // Main result: a change confined to one block changes the hash, exactly when the subkey is
  // not zero.
  lemma GhashBlock(h: Block, z: Block, p: seq<bv8>, x: Block, y: Block, q: seq<bv8>)
    requires |p| % 16 == 0 && |q| % 16 == 0
    ensures Ghash(h, z, p + x + q) == Ghash(h, z, p + y + q) <==> x == y || BlockElem(h) == Zero
  {
    hide GMul, BlockElem, Xor, Ghash;
    var w := Ghash(h, z, p);
    GhashAppend(h, z, p + x, q);
    GhashAppend(h, z, p + y, q);
    GhashAppend(h, z, p, x);
    GhashAppend(h, z, p, y);
    GhashOne(h, w, x);
    GhashOne(h, w, y);
    XorInjective(w, x, y);
    GMulInjective(Xor(w, x), Xor(w, y), h);
    GhashFrom(h, Ghash(h, w, x), Ghash(h, w, y), q);
  }

  // Main result: a change confined to one block of the ciphertext changes the tag, exactly when
  // the subkey is not zero.
  lemma TagDetectsBlock(E: Block -> Block, iv: seq<bv8>, a: seq<bv8>, p: seq<bv8>, x: seq<bv8>, y: seq<bv8>,
                        q: seq<bv8>)
    requires |p| % 16 == 0 && 0 < |x| == |y| <= 16 && (|x| == 16 || q == [])
    requires 8 * |iv| < TWO64 && 8 * |a| < TWO64 && 8 * |p + x + q| < TWO64
    ensures Tag(E, iv, a, p + x + q, 16) == Tag(E, iv, a, p + y + q, 16)
            <==> x == y || BlockElem(Subkey(E)) == Zero
  {
    hide J0, Ghash, BlockElem, Lengths, Xor, Pad16, TagInput, Subkey;
    var h := Subkey(E);
    var l := Lengths(|a|, |p + x + q|);
    InputParts(a, p, x, q);
    InputParts(a, p, y, q);
    Padded(x, y);
    MultiplesAdd(|Pad16(a)|, |p|);
    MultiplesAdd(|Pad16(q)|, 16);
    GhashBlock(h, ZeroBlock, Pad16(a) + p, Pad16(x), Pad16(y), Pad16(q) + l);
    var u, v := Ghash(h, ZeroBlock, TagInput(a, p + x + q)), Ghash(h, ZeroBlock, TagInput(a, p + y + q));
    GctrOneBlock(E, J0(E, iv), u);
    GctrOneBlock(E, J0(E, iv), v);
    XorInjective(E(J0(E, iv)), u, v);
  }

  lemma Padded(x: seq<bv8>, y: seq<bv8>)
    requires 0 < |x| == |y| <= 16
    ensures |Pad16(x)| == |Pad16(y)| == 16
    ensures Pad16(x) == Pad16(y) <==> x == y
  {
    assert Pad16(x)[..|x|] == x && Pad16(y)[..|x|] == y;
  }

  lemma InputParts(a: seq<bv8>, p: seq<bv8>, x: seq<bv8>, q: seq<bv8>)
    requires |p| % 16 == 0 && 0 < |x| <= 16 && (|x| == 16 || q == [])
    requires 8 * |a| < TWO64 && 8 * |p + x + q| < TWO64
    ensures TagInput(a, p + x + q) == Pad16(a) + p + Pad16(x) + (Pad16(q) + Lengths(|a|, |p + x + q|))
  {
    hide Lengths, TagInput;
    var c := p + x + q;
    var l := Lengths(|a|, |c|);
    assert Pad16(c) == p + Pad16(x) + Pad16(q) by {
      PadParts(p, x, q);
    }
    TagInputIs(a, c);
    assert Pad16(a) + (p + Pad16(x) + Pad16(q) + l) == Pad16(a) + p + Pad16(x) + (Pad16(q) + l);
  }

  lemma TagInputIs(a: seq<bv8>, c: seq<bv8>)
    requires 8 * |a| < TWO64 && 8 * |c| < TWO64
    ensures TagInput(a, c) == Pad16(a) + (Pad16(c) + Lengths(|a|, |c|))
  {
    hide Lengths, Pad16;
  }

  lemma PadParts(p: seq<bv8>, x: seq<bv8>, q: seq<bv8>)
    requires |p| % 16 == 0 && 0 < |x| <= 16 && (|x| == 16 || q == [])
    ensures Pad16(p + x + q) == p + Pad16(x) + Pad16(q)
  {
    if q == [] {
      assert p + x + q == p + x && Pad16(q) == [];
      PadAfter(p, x);
      assert p + Pad16(x) + [] == p + Pad16(x);
    } else {
      PadAfter(p + x, q);
      assert Pad16(x) == x;
    }
  }

  lemma PadAfter(p: seq<bv8>, x: seq<bv8>)
    requires |p| % 16 == 0
    ensures Pad16(p + x) == p + Pad16(x)
  {
    var n := (16 - |x| % 16) % 16;
    SameRest(|p|, |x|);
    Associative(p, x, Zeros(n));
  }

  lemma SameRest(m: nat, n: nat)
    requires m % 16 == 0
    ensures (m + n) % 16 == n % 16
  {
    assert m + n == 16 * (m / 16 + n / 16) + n % 16;
  }
}
