// AES byte by byte: the key expansion of section 5.2 of FIPS 197 on strings of four bytes, and
// ShiftRows and MixColumns by row and column.
module AesBytes {
  import opened Bytes
  import opened Gf256
  import opened AesTables
  import opened AesSpec
  import opened AesWords
  import opened AesKey
  import opened Aes
  import AesSbox

  // What is added to word i - nk, from word i - 1 and i / nk.
  function TempBytes(nk: nat, i: nat, t: seq<bv8>): (r: seq<bv8>)
    requires 0 < nk <= i && |t| == 4
    ensures |r| == 4
  {
    if i % nk == 0 then OnePast(i, nk); [XorByte(FSb(t[1]), RconByte(i / nk)), FSb(t[2]), FSb(t[3]), FSb(t[0])]
    else if nk > 6 && i % nk == 4 then [FSb(t[0]), FSb(t[1]), FSb(t[2]), FSb(t[3])]
    else t
  }

  // Word i of the expanded key: w[i] of the figure in section 5.2, as its four bytes.
  function KeyBytes(key: seq<bv8>, nk: nat, i: nat): (r: seq<bv8>)
    requires nk > 0 && |key| == 4 * nk
    ensures |r| == 4
    decreases i
  {
    if i < nk then key[4 * i..4 * i + 4]
    else Xor(KeyBytes(key, nk, i - nk), TempBytes(nk, i, KeyBytes(key, nk, i - 1)))
  }

  lemma XorFour(a: seq<bv8>, b: seq<bv8>)
    requires |a| == |b| == 4
    ensures Xor(a, b) == [XorByte(a[0], b[0]), XorByte(a[1], b[1]), XorByte(a[2], b[2]), XorByte(a[3], b[3])]
  {}

  lemma RotSubRcon(w: bv32, rc: bv8)
    ensures Column(Xor32(SubWord(RotWord(w)), rc as bv32))
            == [XorByte(FSb(Column(w)[1]), rc), FSb(Column(w)[2]), FSb(Column(w)[3]), FSb(Column(w)[0])]
  {
    hide FSb, XorByte, Xor32, B0, B1, B2, B3, RotWord, SBox32;
    var v := RotWord(w);
    RotBytes(w);
    SBox32Bytes(v);
    ColumnXor(SubWord(v), rc as bv32);
    PlaceColumns(rc);
    XorFour(Column(SubWord(v)), [rc, 0, 0, 0]);
    XorUnit(FSb(B2(w)));
    XorUnit(FSb(B3(w)));
    XorUnit(FSb(B0(w)));
  }

  lemma SubBytesOfWord(w: bv32)
    ensures Column(SubWord(w)) == [FSb(Column(w)[0]), FSb(Column(w)[1]), FSb(Column(w)[2]), FSb(Column(w)[3])]
  {
    hide FSb, B0, B1, B2, B3, SBox32;
    SBox32Bytes(w);
  }

  // The same on a word.
  function Temp(nk: nat, i: nat, w: bv32): bv32
    requires 0 < nk <= i
  {
    OnePast(i, nk);
    if i % nk == 0 then Xor32(SubWord(RotWord(w)), RconByte(i / nk) as bv32)
    else if nk > 6 && i % nk == 4 then SubWord(w)
    else w
  }

  lemma KeyWordIs(key: seq<bv8>, nk: nat, i: nat)
    requires nk > 0 && |key| == 4 * nk && i >= nk
    ensures KeyWord(key, nk, i) == Xor32(KeyWord(key, nk, i - nk), Temp(nk, i, KeyWord(key, nk, i - 1)))
  {
    hide Word, Xor32, SubWord, RotWord, RconByte;
  }

  lemma KeyBytesIs(key: seq<bv8>, nk: nat, i: nat)
    requires nk > 0 && |key| == 4 * nk && i >= nk
    ensures KeyBytes(key, nk, i) == Xor(KeyBytes(key, nk, i - nk), TempBytes(nk, i, KeyBytes(key, nk, i - 1)))
  {
    hide TempBytes;
  }

  lemma TempColumn(nk: nat, i: nat, w: bv32)
    requires 0 < nk <= i
    ensures Column(Temp(nk, i, w)) == TempBytes(nk, i, Column(w))
  {
    hide Column, Xor32, SubWord, RotWord, RconByte, XorByte, FSb;
    OnePast(i, nk);
    RotSubRcon(w, RconByte(i / nk));
    SubBytesOfWord(w);
  }

  // The words of the schedule are those of the standard, byte 0 being the first one.
  lemma {:induction false} KeyWordBytes(key: seq<bv8>, nk: nat, i: nat)
    requires nk > 0 && |key| == 4 * nk
    ensures Column(KeyWord(key, nk, i)) == KeyBytes(key, nk, i)
    decreases i
  {
    hide Column, Word, Xor32, Temp, TempBytes;
    if i < nk {
      FirstWords(key, nk, i);
      ColumnWord(key[4 * i..4 * i + 4]);
    } else {
      hide KeyWord, KeyBytes;
      KeyWordIs(key, nk, i);
      KeyBytesIs(key, nk, i);
      KeyWordBytes(key, nk, i - 1);
      KeyWordBytes(key, nk, i - nk);
      TempColumn(nk, i, KeyWord(key, nk, i - 1));
      ColumnXor(KeyWord(key, nk, i - nk), Temp(nk, i, KeyWord(key, nk, i - 1)));
    }
  }

  lemma OnePast(i: nat, nk: nat)
    requires 0 < nk <= i
    ensures i / nk >= 1
  {}

  // Main result: round key i is the four words 4i to 4i + 3, in order.
  lemma ScheduleBytes(key: seq<bv8>, nk: nat, i: nat)
    requires nk > 0 && |key| == 4 * nk && i <= nk + 6
    ensures |KeySchedule(key, nk)| == nk + 7
    ensures KeySchedule(key, nk)[i] == KeyBytes(key, nk, 4 * i) + KeyBytes(key, nk, 4 * i + 1)
                                       + KeyBytes(key, nk, 4 * i + 2) + KeyBytes(key, nk, 4 * i + 3)
  {
    hide KeyWord, KeyBytes, Column;
    KeyWordBytes(key, nk, 4 * i);
    KeyWordBytes(key, nk, 4 * i + 1);
    KeyWordBytes(key, nk, 4 * i + 2);
    KeyWordBytes(key, nk, 4 * i + 3);
  }

  // The schedule begins with the bytes of the key, in order.
  lemma ScheduleStarts(key: seq<bv8>, nk: nat, i: nat, j: nat, r: nat)
    requires nk > 0 && |key| == 4 * nk && j < 4 && r < 4 && 4 * i + j < nk
    ensures |KeySchedule(key, nk)| == nk + 7
    ensures KeySchedule(key, nk)[i][4 * j + r] == key[16 * i + 4 * j + r]
  {
    hide KeySchedule, KeyBytes;
    ScheduleBytes(key, nk, i);
    FourParts(KeyBytes(key, nk, 4 * i), KeyBytes(key, nk, 4 * i + 1), KeyBytes(key, nk, 4 * i + 2),
              KeyBytes(key, nk, 4 * i + 3), j, r);
    FirstBytes(key, nk, 4 * i + j, r);
  }

  lemma FirstBytes(key: seq<bv8>, nk: nat, i: nat, r: nat)
    requires nk > 0 && |key| == 4 * nk && i < nk && r < 4
    ensures KeyBytes(key, nk, i)[r] == key[4 * i + r]
  {}

  lemma FourParts(a: seq<bv8>, b: seq<bv8>, c: seq<bv8>, d: seq<bv8>, j: nat, r: nat)
    requires |a| == |b| == |c| == |d| == 4 && j < 4 && r < 4
    ensures (a + b + c + d)[4 * j + r] == (if j == 0 then a else if j == 1 then b else if j == 2 then c else d)[r]
  {}

  // ----- rows and columns -----

  // Row r of the state is rotated by r columns.
  lemma ShiftRowsAt(s: Block, r: nat, c: nat)
    requires r < 4 && c < 4
    ensures ShiftRows(s)[4 * c + r] == s[4 * ((c + r) % 4) + r]
  {
    if c == 0 {} else if c == 1 {} else if c == 2 {}
  }

  lemma InvShiftRowsAt(s: Block, r: nat, c: nat)
    requires r < 4 && c < 4
    ensures InvShiftRows(s)[4 * ((c + r) % 4) + r] == s[4 * c + r]
  {
    if c == 0 {} else if c == 1 {} else if c == 2 {}
  }

  // The coefficient of a column in the row that is d places above it.
  function MixCoefficient(d: nat): bv8
    requires d < 4
  {
    match d case 0 => 2 case 1 => 3 case 2 => 1 case 3 => 1
  }

  // Every column is multiplied by the matrix of section 5.1.3.
  lemma MixColumnAt(s: seq<bv8>, r: nat)
    requires |s| == 4 && r < 4
    ensures MixColumn(s[0], s[1], s[2], s[3])[r]
            == Sum(AesSbox.Product(s[0], MixCoefficient((4 - r) % 4)),
                   AesSbox.Product(s[1], MixCoefficient((5 - r) % 4)),
                   AesSbox.Product(s[2], MixCoefficient((6 - r) % 4)),
                   AesSbox.Product(s[3], MixCoefficient((7 - r) % 4)))
  {
    hide AesSbox.Product, M2, M3, MixRow, Sum;
    SmallProducts(s[0]);
    SmallProducts(s[1]);
    SmallProducts(s[2]);
    SmallProducts(s[3]);
    RowRotates(s[0], s[1], s[2], s[3]);
  }

  lemma MixColumnsAt(s: Block, c: nat)
    requires c < 4
    ensures MixColumns(s)[4 * c..4 * c + 4] == MixColumn(s[4 * c], s[4 * c + 1], s[4 * c + 2], s[4 * c + 3])
  {
    hide MixColumn;
    FourSlices(MixColumn(s[0], s[1], s[2], s[3]), MixColumn(s[4], s[5], s[6], s[7]),
               MixColumn(s[8], s[9], s[10], s[11]), MixColumn(s[12], s[13], s[14], s[15]), c);
  }

  lemma FourSlices(a: seq<bv8>, b: seq<bv8>, c: seq<bv8>, d: seq<bv8>, j: nat)
    requires |a| == |b| == |c| == |d| == 4 && j < 4
    ensures (a + b + c + d)[4 * j..4 * j + 4] == if j == 0 then a else if j == 1 then b else if j == 2 then c else d
  {}

  lemma SmallProducts(b: bv8)
    ensures AesSbox.Product(b, 1) == b && AesSbox.Product(b, 2) == M2(b) && AesSbox.Product(b, 3) == M3(b)
  {}

  lemma RowRotates(a: bv8, b: bv8, c: bv8, d: bv8)
    ensures Sum(M2(a), M3(b), c, d) == MixRow(a, b, c, d)
    ensures Sum(a, M2(b), M3(c), d) == MixRow(b, c, d, a)
    ensures Sum(a, b, M2(c), M3(d)) == MixRow(c, d, a, b)
    ensures Sum(M3(a), b, c, M2(d)) == MixRow(d, a, b, c)
  {
    hide M2, M3, Sum;
    SumRotate(a, M2(b), M3(c), d);
    SumRotate(a, b, M2(c), M3(d));
    SumRotate(b, M2(c), M3(d), a);
    SumRotate(M3(a), b, c, M2(d));
    SumRotate(b, c, M2(d), M3(a));
    SumRotate(c, M2(d), M3(a), b);
  }
}
