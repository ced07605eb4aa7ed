// The 32-bit column words of share/crypto/aes.c: byte 0, the low byte, is row 0 of the column.
module AesWords {
  import opened Bytes
  import opened Gf256
  import opened AesTables
  import opened AesSpec

  // (w >> 8 k) & 0xFF
  function B0(w: bv32): bv8 { (w & 0xff) as bv8 }
  function B1(w: bv32): bv8 { ((w >> 8) & 0xff) as bv8 }
  function B2(w: bv32): bv8 { ((w >> 16) & 0xff) as bv8 }
  function B3(w: bv32): bv8 { ((w >> 24) & 0xff) as bv8 }

  function P1(b: bv8): bv32 { b as bv32 << 8 }
  function P2(b: bv8): bv32 { b as bv32 << 16 }
  function P3(b: bv8): bv32 { b as bv32 << 24 }

  // GET_UINT32_LE
  function Word(b: seq<bv8>): bv32
    requires |b| == 4
  {
    b[0] as bv32 | P1(b[1]) | P2(b[2]) | P3(b[3])
  }

  // PUT_UINT32_LE
  function Column(w: bv32): (r: seq<bv8>)
    ensures |r| == 4
  {
    [B0(w), B1(w), B2(w), B3(w)]
  }

  function Xor32(a: bv32, b: bv32): bv32
  {
    a ^ b
  }

  // The rotations by which FT1..FT3 and RT1..RT3 are spliced from FT0 and RT0.
  function RotL8(w: bv32): bv32 { (w << 8) | (w >> 24) }
  function FT1(x: bv8): bv32 { RotL8(FT0(x)) }
  function FT2(x: bv8): bv32 { RotL8(FT1(x)) }
  function FT3(x: bv8): bv32 { RotL8(FT2(x)) }
  function RT1(x: bv8): bv32 { RotL8(RT0(x)) }
  function RT2(x: bv8): bv32 { RotL8(RT1(x)) }
  function RT3(x: bv8): bv32 { RotL8(RT2(x)) }

  // ----- words and their bytes -----

  lemma ColumnWord(b: seq<bv8>)
    requires |b| == 4
    ensures Column(Word(b)) == b
  {}

  lemma WordColumn(w: bv32)
    ensures Word(Column(w)) == w
  {}

  lemma ColumnXor(a: bv32, b: bv32)
    ensures Column(Xor32(a, b)) == Xor(Column(a), Column(b))
  {
    hide B0, B1, B2, B3, XorByte, Xor32;
    B0Xor(a, b);
    B1Xor(a, b);
    B2Xor(a, b);
    B3Xor(a, b);
  }

  lemma B0Xor(a: bv32, b: bv32)
    ensures B0(Xor32(a, b)) == XorByte(B0(a), B0(b))
  {}

  lemma B1Xor(a: bv32, b: bv32)
    ensures B1(Xor32(a, b)) == XorByte(B1(a), B1(b))
  {}

  lemma B2Xor(a: bv32, b: bv32)
    ensures B2(Xor32(a, b)) == XorByte(B2(a), B2(b))
  {}

  lemma B3Xor(a: bv32, b: bv32)
    ensures B3(Xor32(a, b)) == XorByte(B3(a), B3(b))
  {}

  lemma ColumnRot(w: bv32)
    ensures Column(RotL8(w)) == [B3(w), B0(w), B1(w), B2(w)]
  {}

  lemma PlaceColumns(b: bv8)
    ensures Column(b as bv32) == [b, 0, 0, 0]
    ensures Column(P1(b)) == [0, b, 0, 0]
    ensures Column(P2(b)) == [0, 0, b, 0]
    ensures Column(P3(b)) == [0, 0, 0, b]
  {}

  // ----- the table entries are the mixed S-box values -----

  lemma FT0Bytes(x: bv8)
    ensures B0(FT0(x)) == M2(FSb(x)) && B1(FT0(x)) == B2(FT0(x)) == FSb(x) && B3(FT0(x)) == M3(FSb(x))
  {
    match x & 0xf
    case 0 => case 1 => case 2 => case 3 => case 4 => case 5 => case 6 => case 7 =>
    case 8 => case 9 => case 10 => case 11 => case 12 => case 13 => case 14 => case _ =>
  }

  lemma FT0Column(x: bv8)
    ensures Column(FT0(x)) == [M2(FSb(x)), FSb(x), FSb(x), M3(FSb(x))]
  {
    hide B0, B1, B2, B3, FT0, FSb, M2, M3;
    FT0Bytes(x);
  }

  lemma RT0BytesBelow(x: bv8)
    requires x < 0x80
    ensures B0(RT0(x)) == ME(RSb(x)) && B1(RT0(x)) == M9(RSb(x)) && B2(RT0(x)) == MD(RSb(x)) && B3(RT0(x)) == MB(RSb(x))
  {
    match x & 0xf
    case 0 => case 1 => case 2 => case 3 => case 4 => case 5 => case 6 => case 7 =>
    case 8 => case 9 => case 10 => case 11 => case 12 => case 13 => case 14 => case _ =>
  }

  lemma RT0BytesAbove(x: bv8)
    requires 0x80 <= x
    ensures B0(RT0(x)) == ME(RSb(x)) && B1(RT0(x)) == M9(RSb(x)) && B2(RT0(x)) == MD(RSb(x)) && B3(RT0(x)) == MB(RSb(x))
  {
    match x & 0xf
    case 0 => case 1 => case 2 => case 3 => case 4 => case 5 => case 6 => case 7 =>
    case 8 => case 9 => case 10 => case 11 => case 12 => case 13 => case 14 => case _ =>
  }

  lemma RT0Column(x: bv8)
    ensures Column(RT0(x)) == [ME(RSb(x)), M9(RSb(x)), MD(RSb(x)), MB(RSb(x))]
  {
    hide B0, B1, B2, B3, RT0, RSb, ME, M9, MD, MB;
    if x < 0x80 {
      RT0BytesBelow(x);
    } else {
      RT0BytesAbove(x);
    }
  }

  // The same entries, rotated.
  lemma ForwardColumns(x: bv8)
    ensures var s, s2, s3 := FSb(x), M2(FSb(x)), M3(FSb(x));
            && Column(FT0(x)) == [s2, s, s, s3]
            && Column(FT1(x)) == [s3, s2, s, s]
            && Column(FT2(x)) == [s, s3, s2, s]
            && Column(FT3(x)) == [s, s, s3, s2]
  {
    hide B0, B1, B2, B3, FT0, FSb, M2, M3, RotL8;
    FT0Column(x);
    ColumnRot(FT0(x));
    ColumnRot(FT1(x));
    ColumnRot(FT2(x));
  }

  lemma ReverseColumns(x: bv8)
    ensures var e, n, d, b := ME(RSb(x)), M9(RSb(x)), MD(RSb(x)), MB(RSb(x));
            && Column(RT0(x)) == [e, n, d, b]
            && Column(RT1(x)) == [b, e, n, d]
            && Column(RT2(x)) == [d, b, e, n]
            && Column(RT3(x)) == [n, d, b, e]
  {
    hide B0, B1, B2, B3, RT0, RSb, ME, M9, MD, MB, RotL8;
    RT0Column(x);
    ColumnRot(RT0(x));
    ColumnRot(RT1(x));
    ColumnRot(RT2(x));
  }

  // ----- the word expressions of the code -----

  // k ^ a ^ b ^ c ^ d, in the order of the macros.
  function Chain(k: bv32, a: bv32, b: bv32, c: bv32, d: bv32): bv32
  {
    Xor32(Xor32(Xor32(Xor32(k, a), b), c), d)
  }

  // One word of AES_FROUND.
  function FWord(k: bv32, y0: bv32, y1: bv32, y2: bv32, y3: bv32): bv32
  {
    Chain(k, FT0(B0(y0)), FT1(B1(y1)), FT2(B2(y2)), FT3(B3(y3)))
  }

  // One word of AES_RROUND.
  function RWord(k: bv32, y0: bv32, y1: bv32, y2: bv32, y3: bv32): bv32
  {
    Chain(k, RT0(B0(y0)), RT1(B1(y1)), RT2(B2(y2)), RT3(B3(y3)))
  }

  // One word of the last round of encryption.
  function FLast(k: bv32, y0: bv32, y1: bv32, y2: bv32, y3: bv32): bv32
  {
    Chain(k, FSb(B0(y0)) as bv32, P1(FSb(B1(y1))), P2(FSb(B2(y2))), P3(FSb(B3(y3))))
  }

  // One word of the last round of decryption.
  function RLast(k: bv32, y0: bv32, y1: bv32, y2: bv32, y3: bv32): bv32
  {
    Chain(k, RSb(B0(y0)) as bv32, P1(RSb(B1(y1))), P2(RSb(B2(y2))), P3(RSb(B3(y3))))
  }

  // One word of the inner loop of mbedtls_aes_setkey_dec.
  function InvKeyWord(sk: bv32): bv32
  {
    Xor32(Xor32(Xor32(RT0(FSb(B0(sk))), RT1(FSb(B1(sk)))), RT2(FSb(B2(sk)))), RT3(FSb(B3(sk))))
  }

  lemma ByteChain(k: bv8, a: bv8, b: bv8, c: bv8, d: bv8)
    ensures XorByte(XorByte(XorByte(XorByte(k, a), b), c), d) == XorByte(Sum(a, b, c, d), k)
    ensures Sum(a, b, c, d) == Sum(b, c, d, a) == Sum(c, d, a, b) == Sum(d, a, b, c)
  {
    hide XorByte;
    XorAssoc(k, a, b);
    XorAssoc(XorByte(k, XorByte(a, b)), c, d);
    XorAssoc(k, XorByte(a, b), XorByte(c, d));
    XorComm(k, Sum(a, b, c, d));
    SumRotate(a, b, c, d);
    SumRotate(b, c, d, a);
    SumRotate(c, d, a, b);
  }

  // Row i of a chain.
  lemma ChainRow(k: bv32, a: bv32, b: bv32, c: bv32, d: bv32, i: nat)
    requires i < 4
    ensures Column(Chain(k, a, b, c, d))[i]
            == XorByte(Sum(Column(a)[i], Column(b)[i], Column(c)[i], Column(d)[i]), Column(k)[i])
  {
    hide XorByte, Xor32, Sum, Column;
    ColumnXor(k, a);
    ColumnXor(Xor32(k, a), b);
    ColumnXor(Xor32(Xor32(k, a), b), c);
    ColumnXor(Xor32(Xor32(Xor32(k, a), b), c), d);
    ByteChain(Column(k)[i], Column(a)[i], Column(b)[i], Column(c)[i], Column(d)[i]);
  }

  // The rows of a chain whose four columns are a mixing matrix applied to (a, b, c, d).
  lemma MixedChain(k: bv32, w: seq<bv32>, p: seq<bv8>, q: seq<bv8>, r: seq<bv8>, t: seq<bv8>)
    requires |w| == |p| == |q| == |r| == |t| == 4
    requires Column(w[0]) == p
    requires Column(w[1]) == [q[3], q[0], q[1], q[2]]
    requires Column(w[2]) == [r[2], r[3], r[0], r[1]]
    requires Column(w[3]) == [t[1], t[2], t[3], t[0]]
    ensures var c := Column(Chain(k, w[0], w[1], w[2], w[3]));
            && c[0] == XorByte(Sum(p[0], q[3], r[2], t[1]), Column(k)[0])
            && c[1] == XorByte(Sum(q[0], r[3], t[2], p[1]), Column(k)[1])
            && c[2] == XorByte(Sum(r[0], t[3], p[2], q[1]), Column(k)[2])
            && c[3] == XorByte(Sum(t[0], p[3], q[2], r[1]), Column(k)[3])
  {
    hide XorByte, Xor32, Sum, Column, Chain;
    ChainRow(k, w[0], w[1], w[2], w[3], 0);
    ChainRow(k, w[0], w[1], w[2], w[3], 1);
    ChainRow(k, w[0], w[1], w[2], w[3], 2);
    ChainRow(k, w[0], w[1], w[2], w[3], 3);
    ByteChain(0, p[1], q[0], r[3], t[2]);
    ByteChain(0, p[2], q[1], r[0], t[3]);
    ByteChain(0, p[3], q[2], r[1], t[0]);
  }

  lemma FWordColumn(k: bv32, y0: bv32, y1: bv32, y2: bv32, y3: bv32)
    ensures Column(FWord(k, y0, y1, y2, y3))
            == Xor(MixColumn(FSb(B0(y0)), FSb(B1(y1)), FSb(B2(y2)), FSb(B3(y3))), Column(k))
  {
    hide XorByte, Xor32, Sum, Column, FSb, FT0, FT1, FT2, FT3, M2, M3, B0, B1, B2, B3, Chain;
    var a, b, c, d := FSb(B0(y0)), FSb(B1(y1)), FSb(B2(y2)), FSb(B3(y3));
    ForwardColumns(B0(y0));
    ForwardColumns(B1(y1));
    ForwardColumns(B2(y2));
    ForwardColumns(B3(y3));
    MixedChain(k, [FT0(B0(y0)), FT1(B1(y1)), FT2(B2(y2)), FT3(B3(y3))],
               [M2(a), a, a, M3(a)], [M2(b), b, b, M3(b)], [M2(c), c, c, M3(c)], [M2(d), d, d, M3(d)]);
  }

  lemma RWordColumn(k: bv32, y0: bv32, y1: bv32, y2: bv32, y3: bv32)
    ensures Column(RWord(k, y0, y1, y2, y3))
            == Xor(InvMixColumn(RSb(B0(y0)), RSb(B1(y1)), RSb(B2(y2)), RSb(B3(y3))), Column(k))
  {
    hide XorByte, Xor32, Sum, Column, RSb, RT0, RT1, RT2, RT3, M9, MB, MD, ME, B0, B1, B2, B3, Chain;
    var a, b, c, d := RSb(B0(y0)), RSb(B1(y1)), RSb(B2(y2)), RSb(B3(y3));
    ReverseColumns(B0(y0));
    ReverseColumns(B1(y1));
    ReverseColumns(B2(y2));
    ReverseColumns(B3(y3));
    MixedChain(k, [RT0(B0(y0)), RT1(B1(y1)), RT2(B2(y2)), RT3(B3(y3))],
               [ME(a), M9(a), MD(a), MB(a)], [ME(b), M9(b), MD(b), MB(b)],
               [ME(c), M9(c), MD(c), MB(c)], [ME(d), M9(d), MD(d), MB(d)]);
  }

  lemma PlacedChain(k: bv32, a: bv8, b: bv8, c: bv8, d: bv8)
    ensures Column(Chain(k, a as bv32, P1(b), P2(c), P3(d))) == Xor([a, b, c, d], Column(k))
  {
    hide XorByte, Xor32, Column, P1, P2, P3, Chain;
    PlaceColumns(a);
    PlaceColumns(b);
    PlaceColumns(c);
    PlaceColumns(d);
    ChainRow(k, a as bv32, P1(b), P2(c), P3(d), 0);
    ChainRow(k, a as bv32, P1(b), P2(c), P3(d), 1);
    ChainRow(k, a as bv32, P1(b), P2(c), P3(d), 2);
    ChainRow(k, a as bv32, P1(b), P2(c), P3(d), 3);
    XorUnit(0);
    XorUnit(a);
    XorUnit(b);
    XorUnit(c);
    XorUnit(d);
  }

  // The key words of decryption are the encryption words through InvMixColumns.
  lemma InvKeyWordColumn(sk: bv32)
    ensures Column(InvKeyWord(sk)) == InvMixColumn(B0(sk), B1(sk), B2(sk), B3(sk))
  {
    hide XorByte, Xor32, Sum, Column, FSb, RSb, RT0, RT1, RT2, RT3, InvMixRow, B0, B1, B2, B3;
    InvKeyWordIsRWord(sk);
    RWordColumn(0, SBox32(sk), SBox32(sk), SBox32(sk), SBox32(sk));
    SBox32Bytes(sk);
    SboxInverse(B0(sk));
    SboxInverse(B1(sk));
    SboxInverse(B2(sk));
    SboxInverse(B3(sk));
    ZeroColumn();
    XorZeroColumn(InvMixColumn(B0(sk), B1(sk), B2(sk), B3(sk)));
  }

  // The S-box on every byte of a word.
  function SBox32(w: bv32): bv32
  {
    Word([FSb(B0(w)), FSb(B1(w)), FSb(B2(w)), FSb(B3(w))])
  }

  lemma SBox32Bytes(w: bv32)
    ensures var s := SBox32(w);
            B0(s) == FSb(B0(w)) && B1(s) == FSb(B1(w)) && B2(s) == FSb(B2(w)) && B3(s) == FSb(B3(w))
  {
    hide B0, B1, B2, B3, FSb, Word;
    ColumnWord([FSb(B0(w)), FSb(B1(w)), FSb(B2(w)), FSb(B3(w))]);
  }

  lemma XorZero32(w: bv32)
    ensures Xor32(0, w) == w
  {}

  lemma InvKeyWordIsRWord(sk: bv32)
    ensures InvKeyWord(sk) == RWord(0, SBox32(sk), SBox32(sk), SBox32(sk), SBox32(sk))
  {
    hide Xor32, FSb, RT0, RT1, RT2, RT3, B0, B1, B2, B3, SBox32;
    SBox32Bytes(sk);
    XorZero32(RT0(FSb(B0(sk))));
  }

  lemma ZeroColumn()
    ensures Column(0) == [0, 0, 0, 0]
  {}

  lemma XorZeroColumn(c: seq<bv8>)
    requires |c| == 4
    ensures Xor(c, [0, 0, 0, 0]) == c
  {
    hide XorByte;
    XorUnit(c[0]);
    XorUnit(c[1]);
    XorUnit(c[2]);
    XorUnit(c[3]);
  }
}
