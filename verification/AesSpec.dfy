// The cipher, the inverse cipher, the equivalent inverse cipher and the key expansion of
// FIPS 197, sections 5.1 to 5.3. Byte r + 4 c of a block is row r, column c of the state.
module AesSpec {
  import opened Bytes
  import opened Gf256
  import opened AesTables

  // ----- the four transformations and their inverses -----

  function SubBytes(s: Block): Block
  {
    seq(16, i requires 0 <= i < 16 => FSb(s[i]))
  }

  function InvSubBytes(s: Block): Block
  {
    seq(16, i requires 0 <= i < 16 => RSb(s[i]))
  }

  // Row r is rotated left by r columns.
  function ShiftRows(s: Block): Block
  {
    [s[0], s[5], s[10], s[15], s[4], s[9], s[14], s[3], s[8], s[13], s[2], s[7], s[12], s[1], s[6], s[11]]
  }

  function InvShiftRows(s: Block): Block
  {
    [s[0], s[13], s[10], s[7], s[4], s[1], s[14], s[11], s[8], s[5], s[2], s[15], s[12], s[9], s[6], s[3]]
  }

  function MixColumn(a: bv8, b: bv8, c: bv8, d: bv8): (r: seq<bv8>)
    ensures |r| == 4
  {
    [MixRow(a, b, c, d), MixRow(b, c, d, a), MixRow(c, d, a, b), MixRow(d, a, b, c)]
  }

  function InvMixColumn(a: bv8, b: bv8, c: bv8, d: bv8): (r: seq<bv8>)
    ensures |r| == 4
  {
    [InvMixRow(a, b, c, d), InvMixRow(b, c, d, a), InvMixRow(c, d, a, b), InvMixRow(d, a, b, c)]
  }

  function MixColumns(s: Block): Block
  {
    MixColumn(s[0], s[1], s[2], s[3]) + MixColumn(s[4], s[5], s[6], s[7])
    + MixColumn(s[8], s[9], s[10], s[11]) + MixColumn(s[12], s[13], s[14], s[15])
  }

  function InvMixColumns(s: Block): Block
  {
    InvMixColumn(s[0], s[1], s[2], s[3]) + InvMixColumn(s[4], s[5], s[6], s[7])
    + InvMixColumn(s[8], s[9], s[10], s[11]) + InvMixColumn(s[12], s[13], s[14], s[15])
  }

  // AddRoundKey is Bytes.Xor.

  lemma SboxInverse(x: bv8)
    ensures RSb(FSb(x)) == x
  {
    match x & 0xf
    case 0 => case 1 => case 2 => case 3 => case 4 => case 5 => case 6 => case 7 =>
    case 8 => case 9 => case 10 => case 11 => case 12 => case 13 => case 14 => case _ =>
  }

  lemma SubBytesInverse(s: Block)
    ensures InvSubBytes(SubBytes(s)) == s
  {
    hide FSb, RSb;
    forall i | 0 <= i < 16 ensures InvSubBytes(SubBytes(s))[i] == s[i] {
      SboxInverse(s[i]);
    }
  }

  lemma ShiftRowsInverse(s: Block)
    ensures InvShiftRows(ShiftRows(s)) == s
  {}

  lemma MixColumnInverse(a: bv8, b: bv8, c: bv8, d: bv8)
    ensures var m := MixColumn(a, b, c, d);
            InvMixColumn(m[0], m[1], m[2], m[3]) == [a, b, c, d]
  {
    hide MixRow, InvMixRow;
    MixCancels(a, b, c, d);
    MixCancels(b, c, d, a);
    MixCancels(c, d, a, b);
    MixCancels(d, a, b, c);
  }

  lemma MixColumnsInverse(s: Block)
    ensures InvMixColumns(MixColumns(s)) == s
  {
    hide MixColumn, InvMixColumn;
    MixColumnInverse(s[0], s[1], s[2], s[3]);
    MixColumnInverse(s[4], s[5], s[6], s[7]);
    MixColumnInverse(s[8], s[9], s[10], s[11]);
    MixColumnInverse(s[12], s[13], s[14], s[15]);
    assert s == [s[0], s[1], s[2], s[3]] + [s[4], s[5], s[6], s[7]]
                + [s[8], s[9], s[10], s[11]] + [s[12], s[13], s[14], s[15]];
  }

  lemma InvMixColumnLinear(a: bv8, b: bv8, c: bv8, d: bv8, a': bv8, b': bv8, c': bv8, d': bv8)
    ensures InvMixColumn(XorByte(a, a'), XorByte(b, b'), XorByte(c, c'), XorByte(d, d'))
            == Xor(InvMixColumn(a, b, c, d), InvMixColumn(a', b', c', d'))
  {
    hide InvMixRow, XorByte;
    InvMixRowLinear(a, b, c, d, a', b', c', d');
    InvMixRowLinear(b, c, d, a, b', c', d', a');
    InvMixRowLinear(c, d, a, b, c', d', a', b');
    InvMixRowLinear(d, a, b, c, d', a', b', c');
  }

  lemma InvMixColumnsLinear(s: Block, k: Block)
    ensures InvMixColumns(Xor(s, k)) == Xor(InvMixColumns(s), InvMixColumns(k))
  {
    hide InvMixColumn, XorByte;
    InvMixColumnLinear(s[0], s[1], s[2], s[3], k[0], k[1], k[2], k[3]);
    InvMixColumnLinear(s[4], s[5], s[6], s[7], k[4], k[5], k[6], k[7]);
    InvMixColumnLinear(s[8], s[9], s[10], s[11], k[8], k[9], k[10], k[11]);
    InvMixColumnLinear(s[12], s[13], s[14], s[15], k[12], k[13], k[14], k[15]);
  }

  // ----- the ciphers, over the round keys k(0), ..., k(nr) -----

  type Schedule = w: seq<Block> | |w| >= 2 witness [Zeros(16), Zeros(16)]

  function Round(s: Block, k: Block): Block
  {
    Xor(MixColumns(ShiftRows(SubBytes(s))), k)
  }

  // The state after round i.
  function Rounds(w: Schedule, input: Block, i: nat): Block
    requires i < |w|
  {
    if i == 0 then Xor(input, w[0]) else Round(Rounds(w, input, i - 1), w[i])
  }

  // Section 5.1.
  function Cipher(w: Schedule, input: Block): Block
  {
    var nr := |w| - 1;
    Xor(ShiftRows(SubBytes(Rounds(w, input, nr - 1))), w[nr])
  }

  // The state of the straightforward inverse cipher after i rounds.
  function InvRounds(w: Schedule, input: Block, i: nat): Block
    requires i < |w|
  {
    var nr := |w| - 1;
    if i == 0 then Xor(input, w[nr])
    else InvMixColumns(Xor(InvSubBytes(InvShiftRows(InvRounds(w, input, i - 1))), w[nr - i]))
  }

  // Section 5.3.
  function InvCipher(w: Schedule, input: Block): Block
  {
    Xor(InvSubBytes(InvShiftRows(InvRounds(w, input, |w| - 2))), w[0])
  }

  // One round of the equivalent inverse cipher.
  function EqRound(s: Block, k: Block): Block
  {
    Xor(InvMixColumns(InvShiftRows(InvSubBytes(s))), k)
  }

  function EqRounds(dw: Schedule, input: Block, i: nat): Block
    requires i < |dw|
  {
    if i == 0 then Xor(input, dw[0]) else EqRound(EqRounds(dw, input, i - 1), dw[i])
  }

  // Section 5.3.5, with the decryption keys in the order of use.
  function EqInvCipher(dw: Schedule, input: Block): Block
  {
    var nr := |dw| - 1;
    Xor(InvShiftRows(InvSubBytes(EqRounds(dw, input, nr - 1))), dw[nr])
  }

  // The schedule in reverse, its inner keys passed through InvMixColumns.
  function DecSchedule(w: Schedule): Schedule
  {
    seq(|w|, i requires 0 <= i < |w| =>
      if i == 0 || i == |w| - 1 then w[|w| - 1 - i] else InvMixColumns(w[|w| - 1 - i]))
  }

  // ----- the inverse ciphers undo the cipher -----

  lemma InvSubShiftCommute(s: Block)
    ensures InvSubBytes(InvShiftRows(s)) == InvShiftRows(InvSubBytes(s))
  {
    hide RSb;
  }

  // After i rounds of decryption the state is what round nr - i of encryption left, before
  // its mixing.
  lemma {:induction false} InvRoundsUndo(w: Schedule, input: Block, i: nat)
    requires i < |w| - 1
    ensures InvRounds(w, Cipher(w, input), i) == ShiftRows(SubBytes(Rounds(w, input, |w| - 2 - i)))
  {
    hide SubBytes, ShiftRows, MixColumns, InvSubBytes, InvShiftRows, InvMixColumns, Xor;
    var nr := |w| - 1;
    if i == 0 {
      XorTwice(ShiftRows(SubBytes(Rounds(w, input, nr - 1))), w[nr]);
    } else {
      InvRoundsUndo(w, input, i - 1);
      var s := Rounds(w, input, nr - i);
      var t := ShiftRows(SubBytes(Rounds(w, input, nr - 1 - i)));
      ShiftRowsInverse(SubBytes(s));
      SubBytesInverse(s);
      XorTwice(MixColumns(t), w[nr - i]);
      MixColumnsInverse(t);
    }
  }

  lemma InvCipherUndoes(w: Schedule, input: Block)
    ensures InvCipher(w, Cipher(w, input)) == input
  {
    hide SubBytes, ShiftRows, MixColumns, InvSubBytes, InvShiftRows, InvMixColumns, Xor;
    InvRoundsUndo(w, input, |w| - 2);
    var s := Rounds(w, input, 0);
    ShiftRowsInverse(SubBytes(s));
    SubBytesInverse(s);
    XorTwice(input, w[0]);
  }

  lemma {:induction false} EqRoundsAgree(w: Schedule, input: Block, i: nat)
    requires i < |w| - 1
    ensures EqRounds(DecSchedule(w), input, i) == InvRounds(w, input, i)
  {
    hide SubBytes, ShiftRows, MixColumns, InvSubBytes, InvShiftRows, InvMixColumns, Xor;
    if i > 0 {
      EqRoundsAgree(w, input, i - 1);
      var s := InvRounds(w, input, i - 1);
      InvSubShiftCommute(s);
      InvMixColumnsLinear(InvSubBytes(InvShiftRows(s)), w[|w| - 1 - i]);
    }
  }

  // The equivalent inverse cipher on the transformed schedule is the inverse cipher.
  lemma EqInvCipherAgrees(w: Schedule, input: Block)
    ensures EqInvCipher(DecSchedule(w), input) == InvCipher(w, input)
  {
    hide SubBytes, ShiftRows, MixColumns, InvSubBytes, InvShiftRows, InvMixColumns, Xor;
    EqRoundsAgree(w, input, |w| - 2);
    InvSubShiftCommute(InvRounds(w, input, |w| - 2));
  }
}
