// The field GF(2^8) of FIPS 197, section 4, on bytes.
module Gf256 {
  import opened Bytes

  // Multiplication by x, modulo x^8 + x^4 + x^3 + x + 1.
  function XTime(b: bv8): bv8
  {
    XorByte(b << 1, if b & 0x80 != 0 then 0x1b else 0)
  }

  // Multiplication by the constants of MixColumns and InvMixColumns.
  function M2(b: bv8): bv8 { XTime(b) }
  function M3(b: bv8): bv8 { XorByte(XTime(b), b) }
  function M4(b: bv8): bv8 { XTime(XTime(b)) }
  function M8(b: bv8): bv8 { XTime(XTime(XTime(b))) }
  function M9(b: bv8): bv8 { XorByte(M8(b), b) }
  function MB(b: bv8): bv8 { XorByte(M8(b), M3(b)) }
  function MD(b: bv8): bv8 { XorByte(XorByte(M8(b), M4(b)), b) }
  function ME(b: bv8): bv8 { XorByte(XorByte(M8(b), M4(b)), M2(b)) }

  lemma XorAssoc(a: bv8, b: bv8, c: bv8)
    ensures XorByte(XorByte(a, b), c) == XorByte(a, XorByte(b, c))
  {}

  lemma XorComm(a: bv8, b: bv8)
    ensures XorByte(a, b) == XorByte(b, a)
  {}

  lemma XorUnit(a: bv8)
    ensures XorByte(a, 0) == XorByte(0, a) == a
    ensures XorByte(a, a) == 0
  {}

  lemma XorSwap(a: bv8, b: bv8, c: bv8, d: bv8)
    ensures XorByte(XorByte(a, b), XorByte(c, d)) == XorByte(XorByte(a, c), XorByte(b, d))
  {
    hide XorByte;
    XorAssoc(a, b, XorByte(c, d));
    XorAssoc(b, c, d);
    XorComm(b, c);
    XorAssoc(c, b, d);
    XorAssoc(a, c, XorByte(b, d));
  }

  lemma XTimeLinear(a: bv8, b: bv8)
    ensures XTime(XorByte(a, b)) == XorByte(XTime(a), XTime(b))
  {
    hide XorByte;
    var ca: bv8, cb: bv8 := if a & 0x80 != 0 then 0x1b else 0, if b & 0x80 != 0 then 0x1b else 0;
    ShiftLinear(a, b);
    XorSwap(a << 1, ca, b << 1, cb);
  }

  lemma ShiftLinear(a: bv8, b: bv8)
    ensures XorByte(a, b) << 1 == XorByte(a << 1, b << 1)
    ensures (if XorByte(a, b) & 0x80 != 0 then 0x1b as bv8 else 0)
            == XorByte(if a & 0x80 != 0 then 0x1b else 0, if b & 0x80 != 0 then 0x1b else 0)
  {
    assert (a ^ b) << 1 == (a << 1) ^ (b << 1);
    assert ((a ^ b) & 0x80 != 0) == ((a & 0x80 != 0) != (b & 0x80 != 0));
  }

  lemma MulLinear(a: bv8, b: bv8)
    ensures M2(XorByte(a, b)) == XorByte(M2(a), M2(b))
    ensures M3(XorByte(a, b)) == XorByte(M3(a), M3(b))
    ensures M4(XorByte(a, b)) == XorByte(M4(a), M4(b))
    ensures M8(XorByte(a, b)) == XorByte(M8(a), M8(b))
    ensures M9(XorByte(a, b)) == XorByte(M9(a), M9(b))
    ensures MB(XorByte(a, b)) == XorByte(MB(a), MB(b))
    ensures MD(XorByte(a, b)) == XorByte(MD(a), MD(b))
    ensures ME(XorByte(a, b)) == XorByte(ME(a), ME(b))
  {
    hide XorByte, XTime;
    XTimeLinear(a, b);
    XTimeLinear(XTime(a), XTime(b));
    XTimeLinear(XTime(XTime(a)), XTime(XTime(b)));
    XorSwap(M2(a), M2(b), a, b);
    XorSwap(M8(a), M8(b), a, b);
    XorSwap(M8(a), M8(b), M3(a), M3(b));
    XorSwap(M8(a), M8(b), M4(a), M4(b));
    XorSwap(XorByte(M8(a), M4(a)), XorByte(M8(b), M4(b)), a, b);
    XorSwap(XorByte(M8(a), M4(a)), XorByte(M8(b), M4(b)), M2(a), M2(b));
  }

  // The entries of the product of the two mixing matrices, one variable at a time.
  lemma MatrixDiagonal(x: bv8)
    ensures XorByte(XorByte(ME(M2(x)), MB(x)), XorByte(MD(x), M9(M3(x)))) == x
    ensures XorByte(XorByte(ME(M3(x)), MB(M2(x))), XorByte(MD(x), M9(x))) == 0
  {}

  lemma MatrixRest(x: bv8)
    ensures XorByte(XorByte(ME(x), MB(M3(x))), XorByte(MD(M2(x)), M9(x))) == 0
    ensures XorByte(XorByte(ME(x), MB(x)), XorByte(MD(M3(x)), M9(M2(x)))) == 0
  {}

  function Sum(a: bv8, b: bv8, c: bv8, d: bv8): bv8
  {
    XorByte(XorByte(a, b), XorByte(c, d))
  }

  lemma SumAdd(a: bv8, b: bv8, c: bv8, d: bv8, a': bv8, b': bv8, c': bv8, d': bv8)
    ensures XorByte(Sum(a, b, c, d), Sum(a', b', c', d'))
            == Sum(XorByte(a, a'), XorByte(b, b'), XorByte(c, c'), XorByte(d, d'))
  {
    hide XorByte;
    XorSwap(XorByte(a, b), XorByte(c, d), XorByte(a', b'), XorByte(c', d'));
    XorSwap(a, b, a', b');
    XorSwap(c, d, c', d');
  }

  lemma MulSum(a: bv8, b: bv8, c: bv8, d: bv8)
    ensures M9(Sum(a, b, c, d)) == Sum(M9(a), M9(b), M9(c), M9(d))
    ensures MB(Sum(a, b, c, d)) == Sum(MB(a), MB(b), MB(c), MB(d))
    ensures MD(Sum(a, b, c, d)) == Sum(MD(a), MD(b), MD(c), MD(d))
    ensures ME(Sum(a, b, c, d)) == Sum(ME(a), ME(b), ME(c), ME(d))
  {
    hide XorByte, M9, MB, MD, ME;
    MulLinear(a, b);
    MulLinear(c, d);
    MulLinear(XorByte(a, b), XorByte(c, d));
  }

  lemma SumRotate(a: bv8, b: bv8, c: bv8, d: bv8)
    ensures Sum(a, b, c, d) == Sum(b, c, d, a)
  {
    hide XorByte;
    XorComm(a, b);
    XorAssoc(b, a, XorByte(c, d));
    XorAssoc(a, c, d);
    XorComm(XorByte(a, c), d);
    XorComm(a, c);
    XorComm(d, XorByte(c, a));
    XorAssoc(c, a, d);
    XorComm(a, d);
    XorAssoc(b, c, XorByte(d, a));
  }

  // One row of MixColumns and of InvMixColumns; the other rows rotate the arguments.
  function MixRow(a: bv8, b: bv8, c: bv8, d: bv8): bv8
  {
    Sum(M2(a), M3(b), c, d)
  }

  function InvMixRow(a: bv8, b: bv8, c: bv8, d: bv8): bv8
  {
    Sum(ME(a), MB(b), MD(c), M9(d))
  }

  // InvMixColumns undoes MixColumns, row by row.
  lemma MixCancels(a: bv8, b: bv8, c: bv8, d: bv8)
    ensures InvMixRow(MixRow(a, b, c, d), MixRow(b, c, d, a), MixRow(c, d, a, b), MixRow(d, a, b, c)) == a
  {
    hide XorByte, M2, M3, M9, MB, MD, ME, Sum;
    SumRotate(a, M2(b), M3(c), d);
    SumRotate(a, b, M2(c), M3(d));
    SumRotate(b, M2(c), M3(d), a);
    SumRotate(M3(a), b, c, M2(d));
    SumRotate(b, c, M2(d), M3(a));
    SumRotate(c, M2(d), M3(a), b);
    MixedColumnCancels(a, b, c, d);
  }

  lemma MixedColumnCancels(a: bv8, b: bv8, c: bv8, d: bv8)
    ensures InvMixRow(Sum(M2(a), M3(b), c, d), Sum(a, M2(b), M3(c), d),
                      Sum(a, b, M2(c), M3(d)), Sum(M3(a), b, c, M2(d))) == a
  {
    hide XorByte, M2, M3, M9, MB, MD, ME;
    MulSum(M2(a), M3(b), c, d);
    MulSum(a, M2(b), M3(c), d);
    MulSum(a, b, M2(c), M3(d));
    MulSum(M3(a), b, c, M2(d));
    SumAdd(ME(M2(a)), ME(M3(b)), ME(c), ME(d), MB(a), MB(M2(b)), MB(M3(c)), MB(d));
    SumAdd(MD(a), MD(b), MD(M2(c)), MD(M3(d)), M9(M3(a)), M9(b), M9(c), M9(M2(d)));
    SumAdd(XorByte(ME(M2(a)), MB(a)), XorByte(ME(M3(b)), MB(M2(b))), XorByte(ME(c), MB(M3(c))), XorByte(ME(d), MB(d)),
           XorByte(MD(a), M9(M3(a))), XorByte(MD(b), M9(b)), XorByte(MD(M2(c)), M9(c)), XorByte(MD(M3(d)), M9(M2(d))));
    MatrixDiagonal(a);
    MatrixRest(a);
    MatrixDiagonal(b);
    MatrixRest(b);
    MatrixDiagonal(c);
    MatrixRest(c);
    MatrixDiagonal(d);
    MatrixRest(d);
    XorUnit(a);
    XorUnit(0);
  }

  lemma InvMixRowLinear(a: bv8, b: bv8, c: bv8, d: bv8, a': bv8, b': bv8, c': bv8, d': bv8)
    ensures InvMixRow(XorByte(a, a'), XorByte(b, b'), XorByte(c, c'), XorByte(d, d'))
            == XorByte(InvMixRow(a, b, c, d), InvMixRow(a', b', c', d'))
  {
    hide XorByte, M9, MB, MD, ME, Sum;
    MulLinear(a, a');
    MulLinear(b, b');
    MulLinear(c, c');
    MulLinear(d, d');
    SumAdd(ME(a), MB(b), MD(c), M9(d), ME(a'), MB(b'), MD(c'), M9(d'));
  }
}
