// share/crypto/aes.c: the key schedules and the T-table cipher, with the ROM tables.
module Aes {
  import opened Bytes
  import opened AesTables
  import opened AesSpec
  import opened AesWords
  import opened AesKey

  const ERR_INVALID_KEY_LENGTH: int := -0x0020

  // Four column words: X0..X3 or Y0..Y3.
  datatype Columns = Columns(x0: bv32, x1: bv32, x2: bv32, x3: bv32)

  function State(x: Columns): Block
  {
    Column(x.x0) + Column(x.x1) + Column(x.x2) + Column(x.x3)
  }

  // AES_FROUND
  function FRound(k: Columns, y: Columns): Columns
  {
    Columns(FWord(k.x0, y.x0, y.x1, y.x2, y.x3), FWord(k.x1, y.x1, y.x2, y.x3, y.x0),
            FWord(k.x2, y.x2, y.x3, y.x0, y.x1), FWord(k.x3, y.x3, y.x0, y.x1, y.x2))
  }

  // AES_RROUND
  function RRound(k: Columns, y: Columns): Columns
  {
    Columns(RWord(k.x0, y.x0, y.x3, y.x2, y.x1), RWord(k.x1, y.x1, y.x0, y.x3, y.x2),
            RWord(k.x2, y.x2, y.x1, y.x0, y.x3), RWord(k.x3, y.x3, y.x2, y.x1, y.x0))
  }

  // The last round of encryption.
  function FFinal(k: Columns, y: Columns): Columns
  {
    Columns(FLast(k.x0, y.x0, y.x1, y.x2, y.x3), FLast(k.x1, y.x1, y.x2, y.x3, y.x0),
            FLast(k.x2, y.x2, y.x3, y.x0, y.x1), FLast(k.x3, y.x3, y.x0, y.x1, y.x2))
  }

  // The last round of decryption.
  function RFinal(k: Columns, y: Columns): Columns
  {
    Columns(RLast(k.x0, y.x0, y.x3, y.x2, y.x1), RLast(k.x1, y.x1, y.x0, y.x3, y.x2),
            RLast(k.x2, y.x2, y.x1, y.x0, y.x3), RLast(k.x3, y.x3, y.x2, y.x1, y.x0))
  }

  // The first key addition.
  function AddKey(k: Columns, x: Columns): Columns
  {
    Columns(Xor32(x.x0, k.x0), Xor32(x.x1, k.x1), Xor32(x.x2, k.x2), Xor32(x.x3, k.x3))
  }

  // ----- the word rounds are the rounds of the standard -----

  lemma StateBytes(x: Columns)
    ensures var s := State(x);
            && s[0] == B0(x.x0) && s[1] == B1(x.x0) && s[2] == B2(x.x0) && s[3] == B3(x.x0)
            && s[4] == B0(x.x1) && s[5] == B1(x.x1) && s[6] == B2(x.x1) && s[7] == B3(x.x1)
            && s[8] == B0(x.x2) && s[9] == B1(x.x2) && s[10] == B2(x.x2) && s[11] == B3(x.x2)
            && s[12] == B0(x.x3) && s[13] == B1(x.x3) && s[14] == B2(x.x3) && s[15] == B3(x.x3)
  {
    hide B0, B1, B2, B3;
  }

  lemma XorParts(a: seq<bv8>, b: seq<bv8>, c: seq<bv8>, d: seq<bv8>)
    requires |a| == |c| && |b| == |d|
    ensures Xor(a + b, c + d) == Xor(a, c) + Xor(b, d)
  {}

  lemma XorColumns(a: seq<bv8>, b: seq<bv8>, c: seq<bv8>, d: seq<bv8>, k: Columns)
    requires |a| == |b| == |c| == |d| == 4
    ensures Xor(a + b + c + d, State(k)) == Xor(a, Column(k.x0)) + Xor(b, Column(k.x1))
                                            + Xor(c, Column(k.x2)) + Xor(d, Column(k.x3))
  {
    hide Column, Xor;
    XorParts(a, b, Column(k.x0), Column(k.x1));
    XorParts(a + b, c, Column(k.x0) + Column(k.x1), Column(k.x2));
    XorParts(a + b + c, d, Column(k.x0) + Column(k.x1) + Column(k.x2), Column(k.x3));
  }

  // The columns after SubBytes, ShiftRows and MixColumns, and after their inverses.
  lemma MixedState(y: Columns)
    ensures MixColumns(ShiftRows(SubBytes(State(y))))
            == MixColumn(FSb(B0(y.x0)), FSb(B1(y.x1)), FSb(B2(y.x2)), FSb(B3(y.x3)))
               + MixColumn(FSb(B0(y.x1)), FSb(B1(y.x2)), FSb(B2(y.x3)), FSb(B3(y.x0)))
               + MixColumn(FSb(B0(y.x2)), FSb(B1(y.x3)), FSb(B2(y.x0)), FSb(B3(y.x1)))
               + MixColumn(FSb(B0(y.x3)), FSb(B1(y.x0)), FSb(B2(y.x1)), FSb(B3(y.x2)))
  {
    hide MixColumn, FSb, B0, B1, B2, B3, State;
    StateBytes(y);
  }

  lemma InvMixedState(y: Columns)
    ensures InvMixColumns(InvShiftRows(InvSubBytes(State(y))))
            == InvMixColumn(RSb(B0(y.x0)), RSb(B1(y.x3)), RSb(B2(y.x2)), RSb(B3(y.x1)))
               + InvMixColumn(RSb(B0(y.x1)), RSb(B1(y.x0)), RSb(B2(y.x3)), RSb(B3(y.x2)))
               + InvMixColumn(RSb(B0(y.x2)), RSb(B1(y.x1)), RSb(B2(y.x0)), RSb(B3(y.x3)))
               + InvMixColumn(RSb(B0(y.x3)), RSb(B1(y.x2)), RSb(B2(y.x1)), RSb(B3(y.x0)))
  {
    hide InvMixColumn, RSb, B0, B1, B2, B3, State;
    StateBytes(y);
  }

  lemma FRoundIsRound(k: Columns, y: Columns)
    ensures State(FRound(k, y)) == Round(State(y), State(k))
  {
    hide Column, Xor, MixColumn, FSb, FWord, B0, B1, B2, B3, State, MixColumns, ShiftRows, SubBytes;
    FWordColumn(k.x0, y.x0, y.x1, y.x2, y.x3);
    FWordColumn(k.x1, y.x1, y.x2, y.x3, y.x0);
    FWordColumn(k.x2, y.x2, y.x3, y.x0, y.x1);
    FWordColumn(k.x3, y.x3, y.x0, y.x1, y.x2);
    MixedState(y);
    StateIs(FRound(k, y));
    XorColumns(MixColumn(FSb(B0(y.x0)), FSb(B1(y.x1)), FSb(B2(y.x2)), FSb(B3(y.x3))),
               MixColumn(FSb(B0(y.x1)), FSb(B1(y.x2)), FSb(B2(y.x3)), FSb(B3(y.x0))),
               MixColumn(FSb(B0(y.x2)), FSb(B1(y.x3)), FSb(B2(y.x0)), FSb(B3(y.x1))),
               MixColumn(FSb(B0(y.x3)), FSb(B1(y.x0)), FSb(B2(y.x1)), FSb(B3(y.x2))), k);
  }

  lemma StateIs(x: Columns)
    ensures State(x) == Column(x.x0) + Column(x.x1) + Column(x.x2) + Column(x.x3)
  {}

  lemma RRoundIsRound(k: Columns, y: Columns)
    ensures State(RRound(k, y)) == EqRound(State(y), State(k))
  {
    hide Column, Xor, InvMixColumn, RSb, RWord, B0, B1, B2, B3, State, InvMixColumns, InvShiftRows, InvSubBytes;
    RWordColumn(k.x0, y.x0, y.x3, y.x2, y.x1);
    RWordColumn(k.x1, y.x1, y.x0, y.x3, y.x2);
    RWordColumn(k.x2, y.x2, y.x1, y.x0, y.x3);
    RWordColumn(k.x3, y.x3, y.x2, y.x1, y.x0);
    InvMixedState(y);
    StateIs(RRound(k, y));
    XorColumns(InvMixColumn(RSb(B0(y.x0)), RSb(B1(y.x3)), RSb(B2(y.x2)), RSb(B3(y.x1))),
               InvMixColumn(RSb(B0(y.x1)), RSb(B1(y.x0)), RSb(B2(y.x3)), RSb(B3(y.x2))),
               InvMixColumn(RSb(B0(y.x2)), RSb(B1(y.x1)), RSb(B2(y.x0)), RSb(B3(y.x3))),
               InvMixColumn(RSb(B0(y.x3)), RSb(B1(y.x2)), RSb(B2(y.x1)), RSb(B3(y.x0))), k);
  }

  lemma FLastColumn(k: bv32, y0: bv32, y1: bv32, y2: bv32, y3: bv32)
    ensures Column(FLast(k, y0, y1, y2, y3)) == Xor([FSb(B0(y0)), FSb(B1(y1)), FSb(B2(y2)), FSb(B3(y3))], Column(k))
  {
    hide Column, Xor, FSb, B0, B1, B2, B3, Chain, P1, P2, P3;
    PlacedChain(k, FSb(B0(y0)), FSb(B1(y1)), FSb(B2(y2)), FSb(B3(y3)));
  }

  lemma RLastColumn(k: bv32, y0: bv32, y1: bv32, y2: bv32, y3: bv32)
    ensures Column(RLast(k, y0, y1, y2, y3)) == Xor([RSb(B0(y0)), RSb(B1(y1)), RSb(B2(y2)), RSb(B3(y3))], Column(k))
  {
    hide Column, Xor, RSb, B0, B1, B2, B3, Chain, P1, P2, P3;
    PlacedChain(k, RSb(B0(y0)), RSb(B1(y1)), RSb(B2(y2)), RSb(B3(y3)));
  }

  // The four columns after SubBytes and ShiftRows.
  function FSboxed(y0: bv32, y1: bv32, y2: bv32, y3: bv32): (r: seq<bv8>)
    ensures |r| == 4
  {
    [FSb(B0(y0)), FSb(B1(y1)), FSb(B2(y2)), FSb(B3(y3))]
  }

  function RSboxed(y0: bv32, y1: bv32, y2: bv32, y3: bv32): (r: seq<bv8>)
    ensures |r| == 4
  {
    [RSb(B0(y0)), RSb(B1(y1)), RSb(B2(y2)), RSb(B3(y3))]
  }

  lemma ShiftedState(y: Columns)
    ensures ShiftRows(SubBytes(State(y)))
            == FSboxed(y.x0, y.x1, y.x2, y.x3) + FSboxed(y.x1, y.x2, y.x3, y.x0)
               + FSboxed(y.x2, y.x3, y.x0, y.x1) + FSboxed(y.x3, y.x0, y.x1, y.x2)
  {
    hide State, FSb, B0, B1, B2, B3;
    StateBytes(y);
    var t := ShiftRows(SubBytes(State(y)));
    FourColumns(t);
    assert FSboxed(y.x0, y.x1, y.x2, y.x3) == [t[0], t[1], t[2], t[3]];
    assert FSboxed(y.x1, y.x2, y.x3, y.x0) == [t[4], t[5], t[6], t[7]];
    assert FSboxed(y.x2, y.x3, y.x0, y.x1) == [t[8], t[9], t[10], t[11]];
    assert FSboxed(y.x3, y.x0, y.x1, y.x2) == [t[12], t[13], t[14], t[15]];
  }

  lemma InvShiftedState(y: Columns)
    ensures InvShiftRows(InvSubBytes(State(y)))
            == RSboxed(y.x0, y.x3, y.x2, y.x1) + RSboxed(y.x1, y.x0, y.x3, y.x2)
               + RSboxed(y.x2, y.x1, y.x0, y.x3) + RSboxed(y.x3, y.x2, y.x1, y.x0)
  {
    hide State, RSb, B0, B1, B2, B3;
    StateBytes(y);
    var t := InvShiftRows(InvSubBytes(State(y)));
    FourColumns(t);
    assert RSboxed(y.x0, y.x3, y.x2, y.x1) == [t[0], t[1], t[2], t[3]];
    assert RSboxed(y.x1, y.x0, y.x3, y.x2) == [t[4], t[5], t[6], t[7]];
    assert RSboxed(y.x2, y.x1, y.x0, y.x3) == [t[8], t[9], t[10], t[11]];
    assert RSboxed(y.x3, y.x2, y.x1, y.x0) == [t[12], t[13], t[14], t[15]];
  }

  lemma FourColumns(t: Block)
    ensures t == [t[0], t[1], t[2], t[3]] + [t[4], t[5], t[6], t[7]]
                 + [t[8], t[9], t[10], t[11]] + [t[12], t[13], t[14], t[15]]
  {}

  lemma FFinalIsLast(k: Columns, y: Columns)
    ensures State(FFinal(k, y)) == Xor(ShiftRows(SubBytes(State(y))), State(k))
  {
    hide Column, Xor, FSb, State, FLast, ShiftRows, SubBytes;
    FLastColumn(k.x0, y.x0, y.x1, y.x2, y.x3);
    FLastColumn(k.x1, y.x1, y.x2, y.x3, y.x0);
    FLastColumn(k.x2, y.x2, y.x3, y.x0, y.x1);
    FLastColumn(k.x3, y.x3, y.x0, y.x1, y.x2);
    StateIs(FFinal(k, y));
    ShiftedState(y);
    XorColumns(FSboxed(y.x0, y.x1, y.x2, y.x3), FSboxed(y.x1, y.x2, y.x3, y.x0),
               FSboxed(y.x2, y.x3, y.x0, y.x1), FSboxed(y.x3, y.x0, y.x1, y.x2), k);
  }

  lemma RFinalIsLast(k: Columns, y: Columns)
    ensures State(RFinal(k, y)) == Xor(InvShiftRows(InvSubBytes(State(y))), State(k))
  {
    hide Column, Xor, RSb, State, RLast, InvShiftRows, InvSubBytes;
    RLastColumn(k.x0, y.x0, y.x3, y.x2, y.x1);
    RLastColumn(k.x1, y.x1, y.x0, y.x3, y.x2);
    RLastColumn(k.x2, y.x2, y.x1, y.x0, y.x3);
    RLastColumn(k.x3, y.x3, y.x2, y.x1, y.x0);
    StateIs(RFinal(k, y));
    InvShiftedState(y);
    XorColumns(RSboxed(y.x0, y.x3, y.x2, y.x1), RSboxed(y.x1, y.x0, y.x3, y.x2),
               RSboxed(y.x2, y.x1, y.x0, y.x3), RSboxed(y.x3, y.x2, y.x1, y.x0), k);
  }

  lemma AddKeyIsXor(k: Columns, x: Columns)
    ensures State(AddKey(k, x)) == Xor(State(x), State(k))
  {
    hide Column, Xor, Xor32;
    ColumnXor(x.x0, k.x0);
    ColumnXor(x.x1, k.x1);
    ColumnXor(x.x2, k.x2);
    ColumnXor(x.x3, k.x3);
    XorColumns(Column(x.x0), Column(x.x1), Column(x.x2), Column(x.x3), k);
  }

  // ----- schedules -----

  function KeyAt(ws: seq<bv32>, i: nat): Columns
    requires 4 * i + 4 <= |ws|
  {
    Columns(ws[4 * i], ws[4 * i + 1], ws[4 * i + 2], ws[4 * i + 3])
  }

  // The round keys stored in a buffer of words.
  function Keys(ws: seq<bv32>, nr: nat): Schedule
    requires nr >= 1 && 4 * nr + 4 <= |ws|
  {
    seq(nr + 1, i requires 0 <= i <= nr => State(KeyAt(ws, i)))
  }

  // The schedule of FIPS 197 for a key of nk words.
  function KeySchedule(key: seq<bv8>, nk: nat): Schedule
    requires nk > 0 && |key| == 4 * nk
  {
    Keys(seq(4 * nk + 28, i requires 0 <= i => KeyWord(key, nk, i)), nk + 6)
  }

  // ----- the context -----

  class AesContext {
    var nr: nat
    const buf: array<bv32>

    ghost predicate Shape()
    {
      buf.Length == 68
    }

    ghost predicate Valid()
      reads this
    {
      Shape() && nr in {10, 12, 14}
    }

    constructor ()
      ensures Shape() && fresh(buf)
    {
      nr := 0;
      buf := new bv32[68](_ => 0);
    }

    // The schedule held by the context.
    ghost function Sched(): Schedule
      requires Valid()
      reads this, buf
    {
      Keys(buf[..], nr)
    }

    // The first n words are the expanded key.
    ghost predicate Expanded(key: seq<bv8>, nk: nat, n: nat)
      requires nk > 0 && |key| == 4 * nk
      reads buf
    {
      n <= buf.Length && forall k :: 0 <= k < n ==> buf[k] == KeyWord(key, nk, k)
    }

    // Stores the next word of the schedule.
    method Put(ghost key: seq<bv8>, ghost nk: nat, n: nat, v: bv32)
      requires nk > 0 && |key| == 4 * nk && n < buf.Length
      requires Expanded(key, nk, n) && v == KeyWord(key, nk, n)
      modifies buf
      ensures Expanded(key, nk, n + 1)
    {
      hide KeyWord;
      buf[n] := v;
    }

    // Word j of group i + 1: RK[n] = RK[n - nk] ^ RK[n - 1].
    method PutNext(ghost key: seq<bv8>, nk: nat, i: nat, j: nat)
      requires nk in {4, 6, 8} && |key| == 4 * nk && 1 <= j < nk && !(nk == 8 && j == 4)
      requires nk * i + nk + j < buf.Length
      requires Expanded(key, nk, nk * i + nk + j)
      modifies buf
      ensures Expanded(key, nk, nk * i + nk + j + 1)
    {
      hide KeyWord, Xor32;
      NextWord(key, nk, i, j);
      Put(key, nk, nk * i + nk + j, Xor32(buf[nk * i + j], buf[nk * i + nk + j - 1]));
    }

    // The first word of group i + 1.
    method PutCore(ghost key: seq<bv8>, nk: nat, i: nat)
      requires nk in {4, 6, 8} && |key| == 4 * nk && i < 10 && nk * i + nk < buf.Length
      requires Expanded(key, nk, nk * i + nk)
      modifies buf
      ensures Expanded(key, nk, nk * i + nk + 1)
    {
      hide KeyWord, Core;
      GroupStart(key, nk, i);
      Put(key, nk, nk * i + nk, Core(buf[nk * i], RCON(i), buf[nk * i + nk - 1]));
    }

    // Word 12 of a 256-bit group.
    method PutHalf(ghost key: seq<bv8>, i: nat)
      requires |key| == 32 && 8 * i + 12 < buf.Length && Expanded(key, 8, 8 * i + 12)
      modifies buf
      ensures Expanded(key, 8, 8 * i + 13)
    {
      hide KeyWord, Half;
      HalfStart(key, i);
      Put(key, 8, 8 * i + 12, Half(buf[8 * i + 4], buf[8 * i + 11]));
    }

    method SetkeyEnc(key: seq<bv8>, keybits: int) returns (ret: int)
      requires Shape() && (KeyBits(keybits) ==> |key| == keybits / 8)
      modifies this, buf
      ensures ret == if KeyBits(keybits) then 0 else ERR_INVALID_KEY_LENGTH
      ensures ret != 0 ==> nr == old(nr) && buf[..] == old(buf[..])
      ensures ret == 0 ==> Valid() && nr == keybits / 32 + 6
      ensures ret == 0 ==> Sched() == KeySchedule(key, keybits / 32)
    {
      hide KeyWord, State, Word;
      if keybits == 128 {
        nr := 10;
      } else if keybits == 192 {
        nr := 12;
      } else if keybits == 256 {
        nr := 14;
      } else {
        return ERR_INVALID_KEY_LENGTH;
      }
      var nk := keybits / 32;
      var i := 0;
      while i < nk
        invariant 0 <= i <= nk && nr == nk + 6
        invariant Expanded(key, nk, i)
      {
        FirstWords(key, nk, i);
        Put(key, nk, i, Word(key[4 * i..4 * i + 4]));
        i := i + 1;
      }
      if nr == 10 {
        Expand128(key);
      } else if nr == 12 {
        Expand192(key);
      } else {
        Expand256(key);
      }
      ExpandedKeys(buf[..], key, nk);
      return 0;
    }

    method Expand128(key: seq<bv8>)
      requires Shape() && |key| == 16 && Expanded(key, 4, 4)
      modifies buf
      ensures Expanded(key, 4, 44)
    {
      hide KeyWord, Core, Xor32;
      var i := 0;
      while i < 10
        invariant 0 <= i <= 10
        invariant Expanded(key, 4, 4 * i + 4)
      {
        PutCore(key, 4, i);
        PutNext(key, 4, i, 1);
        PutNext(key, 4, i, 2);
        PutNext(key, 4, i, 3);
        i := i + 1;
      }
    }

    method Expand192(key: seq<bv8>)
      requires Shape() && |key| == 24 && Expanded(key, 6, 6)
      modifies buf
      ensures Expanded(key, 6, 54)
    {
      hide KeyWord, Core, Xor32;
      var i := 0;
      while i < 8
        invariant 0 <= i <= 8
        invariant Expanded(key, 6, 6 * i + 6)
      {
        PutCore(key, 6, i);
        PutNext(key, 6, i, 1);
        PutNext(key, 6, i, 2);
        PutNext(key, 6, i, 3);
        PutNext(key, 6, i, 4);
        PutNext(key, 6, i, 5);
        i := i + 1;
      }
    }

    method Expand256(key: seq<bv8>)
      requires Shape() && |key| == 32 && Expanded(key, 8, 8)
      modifies buf
      ensures Expanded(key, 8, 64)
    {
      hide KeyWord, Core, Half, Xor32;
      var i := 0;
      while i < 7
        invariant 0 <= i <= 7
        invariant Expanded(key, 8, 8 * i + 8)
      {
        PutCore(key, 8, i);
        PutNext(key, 8, i, 1);
        PutNext(key, 8, i, 2);
        PutNext(key, 8, i, 3);
        PutHalf(key, i);
        PutNext(key, 8, i, 5);
        PutNext(key, 8, i, 6);
        PutNext(key, 8, i, 7);
        i := i + 1;
      }
    }

    // The four words of key r, where the pointer RK stands after r keys.
    function RK(r: nat): Columns
      requires Shape() && r < 17
      reads buf
    {
      Columns(buf[4 * r], buf[4 * r + 1], buf[4 * r + 2], buf[4 * r + 3])
    }

    lemma RKIsKey(r: nat)
      requires Valid() && r <= nr
      ensures |Sched()| == nr + 1 && State(RK(r)) == Sched()[r]
    {
      hide State;
    }

    method Encrypt(input: array<bv8>, output: array<bv8>)
      requires Valid() && input.Length == output.Length == 16
      modifies output
      ensures output[..] == Cipher(Sched(), old(input[..]))
    {
      hide State, FRound, FFinal, AddKey, Round, ShiftRows, SubBytes, Xor, Cipher, Keys, AesContext.RK;
      ghost var inp: Block := input[..];
      ghost var w := Sched();
      var x := Load(input);
      AddKeyIsXor(RK(0), x);
      RKIsKey(0);
      x := AddKey(RK(0), x);
      var r := 1;
      var i := nr / 2 - 1;
      while i > 0
        invariant 0 <= i <= nr / 2 - 1
        invariant r == nr - 1 - 2 * i
        invariant State(x) == Rounds(w, inp, r - 1)
      {
        RKIsKey(r);
        RKIsKey(r + 1);
        FRoundIsRound(RK(r), x);
        var y := FRound(RK(r), x);
        FRoundIsRound(RK(r + 1), y);
        x := FRound(RK(r + 1), y);
        r := r + 2;
        i := i - 1;
      }
      RKIsKey(r);
      RKIsKey(r + 1);
      FRoundIsRound(RK(r), x);
      var y := FRound(RK(r), x);
      CipherEnds(w, inp, RK(r + 1), y);
      x := FFinal(RK(r + 1), y);
      Store(x, output);
      assert w == Sched();
    }

    method Decrypt(input: array<bv8>, output: array<bv8>)
      requires Valid() && input.Length == output.Length == 16
      modifies output
      ensures output[..] == EqInvCipher(Sched(), old(input[..]))
    {
      hide State, RRound, RFinal, AddKey, EqRound, InvShiftRows, InvSubBytes, Xor, EqInvCipher, Keys, AesContext.RK;
      ghost var inp: Block := input[..];
      ghost var w := Sched();
      var x := Load(input);
      AddKeyIsXor(RK(0), x);
      RKIsKey(0);
      x := AddKey(RK(0), x);
      var r := 1;
      var i := nr / 2 - 1;
      while i > 0
        invariant 0 <= i <= nr / 2 - 1
        invariant r == nr - 1 - 2 * i
        invariant State(x) == EqRounds(w, inp, r - 1)
      {
        RKIsKey(r);
        RKIsKey(r + 1);
        RRoundIsRound(RK(r), x);
        var y := RRound(RK(r), x);
        RRoundIsRound(RK(r + 1), y);
        x := RRound(RK(r + 1), y);
        r := r + 2;
        i := i - 1;
      }
      RKIsKey(r);
      RKIsKey(r + 1);
      RRoundIsRound(RK(r), x);
      var y := RRound(RK(r), x);
      EqInvCipherEnds(w, inp, RK(r + 1), y);
      x := RFinal(RK(r + 1), y);
      Store(x, output);
      assert w == Sched();
    }

    method SetkeyDec(key: seq<bv8>, keybits: int) returns (ret: int)
      requires Shape() && (KeyBits(keybits) ==> |key| == keybits / 8)
      modifies this, buf
      ensures ret == if KeyBits(keybits) then 0 else ERR_INVALID_KEY_LENGTH
      ensures ret != 0 ==> nr == old(nr) && buf[..] == old(buf[..])
      ensures ret == 0 ==> Valid() && nr == keybits / 32 + 6
      ensures ret == 0 ==> Sched() == DecSchedule(KeySchedule(key, keybits / 32))
    {
      hide DecWord, State, KeyWord, KeySchedule, DecSchedule, Keys;
      var cty := new AesContext();
      ret := cty.SetkeyEnc(key, keybits);
      if ret != 0 {
        return;
      }
      nr := cty.nr;
      CopyWords(cty.buf, 0);
      var i := nr - 1;
      while i > 0
        invariant 0 <= i <= nr - 1
        invariant nr == cty.nr == keybits / 32 + 6
        invariant cty.Sched() == KeySchedule(key, keybits / 32)
        invariant forall x :: 0 <= x < 4 * (nr - i) ==> buf[x] == DecWord(cty.buf[..], nr, x)
      {
        InvWords(cty.buf, nr - i);
        i := i - 1;
      }
      CopyWords(cty.buf, nr);
      DecKeys(cty.buf[..], buf[..], nr);
    }

    // Words 4m..4m+3 of the decryption schedule, an outer key copied from sk.
    method CopyWords(sk: array<bv32>, m: nat)
      requires Valid() && sk.Length == 68 && sk != buf && (m == 0 || m == nr)
      requires forall x :: 0 <= x < 4 * m ==> buf[x] == DecWord(sk[..], nr, x)
      modifies buf
      ensures forall x :: 0 <= x < 4 * m + 4 ==> buf[x] == DecWord(sk[..], nr, x)
    {
      hide DecWord;
      var j := 0;
      while j < 4
        invariant 0 <= j <= 4
        invariant forall x :: 0 <= x < 4 * m + j ==> buf[x] == DecWord(sk[..], nr, x)
      {
        DecWordAt(sk[..], nr, m, j);
        buf[4 * m + j] := sk[4 * (nr - m) + j];
        j := j + 1;
      }
    }

    // Words 4m..4m+3, an inner key passed through RT0..RT3 and FSb.
    method InvWords(sk: array<bv32>, m: nat)
      requires Valid() && sk.Length == 68 && sk != buf && 0 < m < nr
      requires forall x :: 0 <= x < 4 * m ==> buf[x] == DecWord(sk[..], nr, x)
      modifies buf
      ensures forall x :: 0 <= x < 4 * m + 4 ==> buf[x] == DecWord(sk[..], nr, x)
    {
      hide DecWord, InvKeyWord;
      var j := 0;
      while j < 4
        invariant 0 <= j <= 4
        invariant forall x :: 0 <= x < 4 * m + j ==> buf[x] == DecWord(sk[..], nr, x)
      {
        DecWordAt(sk[..], nr, m, j);
        buf[4 * m + j] := InvKeyWord(sk[4 * (nr - m) + j]);
        j := j + 1;
      }
    }
  }

  lemma FirstWords(key: seq<bv8>, nk: nat, i: nat)
    requires nk > 0 && |key| == 4 * nk && i < nk
    ensures KeyWord(key, nk, i) == Word(key[4 * i..4 * i + 4])
  {
    hide Word;
  }

  lemma GroupStart(key: seq<bv8>, nk: nat, i: nat)
    requires nk in {4, 6, 8} && |key| == 4 * nk && i < 10
    ensures KeyWord(key, nk, nk * i + nk)
            == Core(KeyWord(key, nk, nk * i), RCON(i), KeyWord(key, nk, nk * i + nk - 1))
  {
    hide Core, Xor32, SubWord, RotWord, RconByte, Word;
    Place(nk, i, 0);
    RconEntry(i);
    CoreIsSpec(KeyWord(key, nk, nk * i), RCON(i), KeyWord(key, nk, nk * i + nk - 1));
  }

  // Position nk * i + nk + j is place j of its group.
  lemma Place(nk: nat, i: nat, j: nat)
    requires nk in {4, 6, 8} && j < nk
    ensures (nk * i + nk + j) % nk == j && (nk * i + nk + j) / nk == i + 1
  {
    if nk == 4 {
      assert (4 * i + 4 + j) / 4 == i + 1;
    } else if nk == 6 {
      assert (6 * i + 6 + j) / 6 == i + 1;
    } else {
      assert (8 * i + 8 + j) / 8 == i + 1;
    }
  }

  lemma PlainWord(key: seq<bv8>, nk: nat, n: nat)
    requires nk > 0 && |key| == 4 * nk && n >= nk
    requires n % nk != 0 && !(nk > 6 && n % nk == 4)
    ensures KeyWord(key, nk, n) == Xor32(KeyWord(key, nk, n - nk), KeyWord(key, nk, n - 1))
  {
    hide Xor32, Word, SubWord, RotWord, RconByte;
  }

  lemma NextWord(key: seq<bv8>, nk: nat, i: nat, j: nat)
    requires nk in {4, 6, 8} && |key| == 4 * nk && 1 <= j < nk && !(nk == 8 && j == 4)
    ensures KeyWord(key, nk, nk * i + nk + j)
            == Xor32(KeyWord(key, nk, nk * i + j), KeyWord(key, nk, nk * i + nk + j - 1))
  {
    hide Xor32, KeyWord;
    Place(nk, i, j);
    PlainWord(key, nk, nk * i + nk + j);
  }

  lemma HalfStart(key: seq<bv8>, i: nat)
    requires |key| == 32
    ensures KeyWord(key, 8, 8 * i + 12) == Half(KeyWord(key, 8, 8 * i + 4), KeyWord(key, 8, 8 * i + 11))
  {
    hide Xor32, Half, SubWord, RotWord, Word, RconByte;
    Place(8, i, 4);
    HalfIsSpec(KeyWord(key, 8, 8 * i + 4), KeyWord(key, 8, 8 * i + 11));
  }

  lemma ExpandedKeys(ws: seq<bv32>, key: seq<bv8>, nk: nat)
    requires nk in {4, 6, 8} && |key| == 4 * nk && |ws| >= 4 * nk + 28
    requires forall k :: 0 <= k < 4 * nk + 28 ==> ws[k] == KeyWord(key, nk, k)
    ensures Keys(ws, nk + 6) == KeySchedule(key, nk)
  {
    hide State, KeyWord;
    var full := seq(4 * nk + 28, i requires 0 <= i => KeyWord(key, nk, i));
    forall i | 0 <= i <= nk + 6 ensures Keys(ws, nk + 6)[i] == KeySchedule(key, nk)[i] {
      assert KeyAt(ws, i) == KeyAt(full, i);
    }
  }

  // Word x of the decryption schedule.
  function DecWord(ws: seq<bv32>, nr: nat, x: nat): bv32
    requires 4 * nr + 4 <= |ws| && x < 4 * nr + 4
  {
    var sk := ws[4 * (nr - x / 4) + x % 4];
    if x < 4 || x >= 4 * nr then sk else InvKeyWord(sk)
  }

  lemma DecWordAt(ws: seq<bv32>, nr: nat, m: nat, j: nat)
    requires 4 * nr + 4 <= |ws| && m <= nr && j < 4
    ensures DecWord(ws, nr, 4 * m + j)
            == if m == 0 || m == nr then ws[4 * (nr - m) + j] else InvKeyWord(ws[4 * (nr - m) + j])
  {
    hide InvKeyWord;
    assert (4 * m + j) / 4 == m && (4 * m + j) % 4 == j;
  }

  lemma InvKeyState(k: Columns)
    ensures State(Columns(InvKeyWord(k.x0), InvKeyWord(k.x1), InvKeyWord(k.x2), InvKeyWord(k.x3)))
            == InvMixColumns(State(k))
  {
    hide InvKeyWord, Column, InvMixColumn, B0, B1, B2, B3;
    InvKeyWordColumn(k.x0);
    InvKeyWordColumn(k.x1);
    InvKeyWordColumn(k.x2);
    InvKeyWordColumn(k.x3);
    StateBytes(k);
  }

  lemma DecKeys(ws: seq<bv32>, ds: seq<bv32>, nr: nat)
    requires nr >= 1 && 4 * nr + 4 <= |ws| && 4 * nr + 4 <= |ds|
    requires forall x :: 0 <= x < 4 * nr + 4 ==> ds[x] == DecWord(ws, nr, x)
    ensures Keys(ds, nr) == DecSchedule(Keys(ws, nr))
  {
    hide State, DecWord, InvMixColumns, InvKeyWord;
    forall m | 0 <= m <= nr ensures Keys(ds, nr)[m] == DecSchedule(Keys(ws, nr))[m] {
      DecKey(ws, ds, nr, m);
    }
  }

  lemma DecKey(ws: seq<bv32>, ds: seq<bv32>, nr: nat, m: nat)
    requires m <= nr && nr >= 1 && 4 * nr + 4 <= |ws| && 4 * nr + 4 <= |ds|
    requires forall x :: 0 <= x < 4 * nr + 4 ==> ds[x] == DecWord(ws, nr, x)
    ensures State(KeyAt(ds, m))
            == if m == 0 || m == nr then State(KeyAt(ws, nr - m)) else InvMixColumns(State(KeyAt(ws, nr - m)))
  {
    hide State, DecWord, InvMixColumns, InvKeyWord;
    DecWordAt(ws, nr, m, 0);
    DecWordAt(ws, nr, m, 1);
    DecWordAt(ws, nr, m, 2);
    DecWordAt(ws, nr, m, 3);
    InvKeyState(KeyAt(ws, nr - m));
  }

  // Main result: for every key of 128, 192 or 256 bits and every block, what Decrypt computes
  // under the schedule of SetkeyDec undoes what Encrypt computes under that of SetkeyEnc.
  lemma DecryptUndoesEncrypt(key: seq<bv8>, keybits: int, block: Block)
    requires KeyBits(keybits) && |key| == keybits / 8
    ensures var w := KeySchedule(key, keybits / 32);
            EqInvCipher(DecSchedule(w), Cipher(w, block)) == block
  {
    hide KeySchedule, Cipher, EqInvCipher, InvCipher;
    var w := KeySchedule(key, keybits / 32);
    EqInvCipherAgrees(w, Cipher(w, block));
    InvCipherUndoes(w, block);
  }

  // The last round under the last key completes the cipher.
  lemma CipherEnds(w: Schedule, input: Block, k: Columns, y: Columns)
    requires State(y) == Rounds(w, input, |w| - 2) && State(k) == w[|w| - 1]
    ensures State(FFinal(k, y)) == Cipher(w, input)
  {
    hide State, FFinal, Xor, ShiftRows, SubBytes, Rounds;
    FFinalIsLast(k, y);
  }

  lemma EqInvCipherEnds(w: Schedule, input: Block, k: Columns, y: Columns)
    requires State(y) == EqRounds(w, input, |w| - 2) && State(k) == w[|w| - 1]
    ensures State(RFinal(k, y)) == EqInvCipher(w, input)
  {
    hide State, RFinal, Xor, InvShiftRows, InvSubBytes, EqRounds;
    RFinalIsLast(k, y);
  }

  // GET_UINT32_LE on the four words of a block.
  method Load(input: array<bv8>) returns (x: Columns)
    requires input.Length == 16
    ensures State(x) == input[..]
  {
    hide Word, Column;
    x := Columns(Word(input[0..4]), Word(input[4..8]), Word(input[8..12]), Word(input[12..16]));
    ColumnWord(input[0..4]);
    ColumnWord(input[4..8]);
    ColumnWord(input[8..12]);
    ColumnWord(input[12..16]);
  }

  // PUT_UINT32_LE on the four words of a block.
  method Store(x: Columns, output: array<bv8>)
    requires output.Length == 16
    modifies output
    ensures output[..] == State(x)
  {
    hide Column;
    var b := State(x);
    forall i | 0 <= i < 16 { output[i] := b[i]; }
  }
}
