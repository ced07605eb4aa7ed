// A vector of the self-test of share/crypto/cmac.c, followed through the key expansion and the
// rounds: the AES-128 key of RFC 4493, the zero block, and the two subkeys that come out.
module AesVector {
  import opened Bytes
  import opened AesSpec
  import opened AesWords
  import opened AesKey
  import opened Aes
  import AesCbc
  import Cmac

  const KEY: seq<bv8> := [0x2b, 0x7e, 0x15, 0x16, 0x28, 0xae, 0xd2, 0xa6,
                          0xab, 0xf7, 0x15, 0x88, 0x09, 0xcf, 0x4f, 0x3c]

  // The expanded key, word by word.
  function Word44(i: nat): bv32
    requires i < 44
  {
    match i
    case 0 => 0x16157e2b case 1 => 0xa6d2ae28 case 2 => 0x8815f7ab case 3 => 0x3c4fcf09
    case 4 => 0x17fefaa0 case 5 => 0xb12c5488 case 6 => 0x3939a323 case 7 => 0x05766c2a
    case 8 => 0xf295c2f2 case 9 => 0x43b9967a case 10 => 0x7a803559 case 11 => 0x7ff65973
    case 12 => 0x7d47803d case 13 => 0x3efe1647 case 14 => 0x447e231e case 15 => 0x3b887a6d
    case 16 => 0x41a544ef case 17 => 0x7f5b52a8 case 18 => 0x3b2571b6 case 19 => 0x00ad0bdb
    case 20 => 0xf8c6d1d4 case 21 => 0x879d837c case 22 => 0xbcb8f2ca case 23 => 0xbc15f911
    case 24 => 0x7aa3886d case 25 => 0xfd3e0b11 case 26 => 0x4186f9db case 27 => 0xfd9300ca
    case 28 => 0x0ef7544e case 29 => 0xf3c95f5f case 30 => 0xb24fa684 case 31 => 0x4fdca64e
    case 32 => 0x2173d2ea case 33 => 0xd2ba8db5 case 34 => 0x60f52b31 case 35 => 0x2f298d7f
    case 36 => 0xf36677ac case 37 => 0x21dcfa19 case 38 => 0x4129d128 case 39 => 0x6e005c57
    case 40 => 0xa8f914d0 case 41 => 0x8925eec9 case 42 => 0xc80c3fe1 case _ => 0xa60c63b6
  }

  // The columns after each round.
  function Trace(i: nat): Columns
    requires i < 10
  {
    match i
    case 0 => Columns(0x16157e2b, 0xa6d2ae28, 0x8815f7ab, 0x3c4fcf09)
    case 1 => Columns(0x6f7fd8dc, 0x8faa609b, 0x040f011f, 0xd3a29057)
    case 2 => Columns(0x0985039e, 0x72469c44, 0x750a2bc3, 0xa082dd38)
    case 3 => Columns(0x026765d5, 0xf331c06b, 0xe06476cd, 0x32fcf829)
    case 4 => Columns(0xfbffce5c, 0x98fee1d9, 0x39dfd79c, 0xa7e8877b)
    case 5 => Columns(0xf8b79591, 0x539a1390, 0x48977e04, 0xcbe4117c)
    case 6 => Columns(0x29756f64, 0x45bc6cf7, 0xa69319fd, 0xfb34c57e)
    case 7 => Columns(0x5956c7eb, 0xd6b10955, 0xa92e772e, 0xc4219511)
    case 8 => Columns(0x09dd760d, 0x48145764, 0x5f96706a, 0x0188082a)
    case _ => Columns(0xa255c118, 0x735e4da9, 0x1274b9ef, 0x1d7813fb)
  }

  // ----- the key expansion -----

  lemma FirstFour(i: nat)
    requires i < 4
    ensures Word(KEY[4 * i..4 * i + 4]) == Word44(i)
  {
    assert KEY[4 * i..4 * i + 4] == [KEY[4 * i], KEY[4 * i + 1], KEY[4 * i + 2], KEY[4 * i + 3]];
  }

  lemma Core0()
    ensures Core(0x16157e2b, 0x01, 0x3c4fcf09) == 0x17fefaa0
    ensures Core(0x17fefaa0, 0x02, 0x05766c2a) == 0xf295c2f2
  {}

  lemma Core1()
    ensures Core(0xf295c2f2, 0x04, 0x7ff65973) == 0x7d47803d
    ensures Core(0x7d47803d, 0x08, 0x3b887a6d) == 0x41a544ef
  {}

  lemma Core2()
    ensures Core(0x41a544ef, 0x10, 0x00ad0bdb) == 0xf8c6d1d4
    ensures Core(0xf8c6d1d4, 0x20, 0xbc15f911) == 0x7aa3886d
  {}

  lemma Core3()
    ensures Core(0x7aa3886d, 0x40, 0xfd9300ca) == 0x0ef7544e
    ensures Core(0x0ef7544e, 0x80, 0x4fdca64e) == 0x2173d2ea
  {}

  lemma Core4()
    ensures Core(0x2173d2ea, 0x1b, 0x2f298d7f) == 0xf36677ac
    ensures Core(0xf36677ac, 0x36, 0x6e005c57) == 0xa8f914d0
  {}

  lemma Cores(i: nat)
    requires i < 10
    ensures Core(Word44(4 * i), RCON(i), Word44(4 * i + 3)) == Word44(4 * i + 4)
  {
    hide Core;
    Core0();
    Core1();
    Core2();
    Core3();
    Core4();
    match i
    case 0 => case 1 => case 2 => case 3 => case 4 => case 5 => case 6 => case 7 => case 8 => case _ =>
  }

  lemma Sums(i: nat, j: nat)
    requires i < 10 && 1 <= j < 4
    ensures Xor32(Word44(4 * i + j), Word44(4 * i + j + 3)) == Word44(4 * i + j + 4)
  {
    match i
    case 0 => case 1 => case 2 => case 3 => case 4 => case 5 => case 6 => case 7 => case 8 => case _ =>
  }

  lemma {:induction false} Expansion(n: nat)
    requires n < 44
    ensures KeyWord(KEY, 4, n) == Word44(n)
  {
    hide KeyWord, Core, Xor32, Word44, Word;
    if n < 4 {
      FirstFour(n);
      FirstWords(KEY, 4, n);
    } else {
      var i, j := n / 4 - 1, n % 4;
      Expansion(n - 4);
      Expansion(n - 1);
      if j == 0 {
        GroupStart(KEY, 4, i);
        Cores(i);
      } else {
        NextWord(KEY, 4, i, j);
        Sums(i, j);
      }
    }
  }

  function RoundKey(i: nat): Columns
    requires i <= 10
  {
    Columns(Word44(4 * i), Word44(4 * i + 1), Word44(4 * i + 2), Word44(4 * i + 3))
  }

  lemma RoundKeys(i: nat)
    requires i <= 10
    ensures |KeySchedule(KEY, 4)| == 11 && KeySchedule(KEY, 4)[i] == State(RoundKey(i))
  {
    hide KeyWord, Word44, State;
    Expansion(4 * i);
    Expansion(4 * i + 1);
    Expansion(4 * i + 2);
    Expansion(4 * i + 3);
  }

  // ----- the rounds -----

  lemma Round1a()
    ensures FWord(0x17fefaa0, 0x16157e2b, 0xa6d2ae28, 0x8815f7ab, 0x3c4fcf09) == 0x6f7fd8dc
  {}

  lemma Round1b()
    ensures FWord(0xb12c5488, 0xa6d2ae28, 0x8815f7ab, 0x3c4fcf09, 0x16157e2b) == 0x8faa609b
  {}

  lemma Round1c()
    ensures FWord(0x3939a323, 0x8815f7ab, 0x3c4fcf09, 0x16157e2b, 0xa6d2ae28) == 0x040f011f
  {}

  lemma Round1d()
    ensures FWord(0x05766c2a, 0x3c4fcf09, 0x16157e2b, 0xa6d2ae28, 0x8815f7ab) == 0xd3a29057
  {}

  lemma Round2a()
    ensures FWord(0xf295c2f2, 0x6f7fd8dc, 0x8faa609b, 0x040f011f, 0xd3a29057) == 0x0985039e
  {}

  lemma Round2b()
    ensures FWord(0x43b9967a, 0x8faa609b, 0x040f011f, 0xd3a29057, 0x6f7fd8dc) == 0x72469c44
  {}

  lemma Round2c()
    ensures FWord(0x7a803559, 0x040f011f, 0xd3a29057, 0x6f7fd8dc, 0x8faa609b) == 0x750a2bc3
  {}

  lemma Round2d()
    ensures FWord(0x7ff65973, 0xd3a29057, 0x6f7fd8dc, 0x8faa609b, 0x040f011f) == 0xa082dd38
  {}

  lemma Round3a()
    ensures FWord(0x7d47803d, 0x0985039e, 0x72469c44, 0x750a2bc3, 0xa082dd38) == 0x026765d5
  {}

  lemma Round3b()
    ensures FWord(0x3efe1647, 0x72469c44, 0x750a2bc3, 0xa082dd38, 0x0985039e) == 0xf331c06b
  {}

  lemma Round3c()
    ensures FWord(0x447e231e, 0x750a2bc3, 0xa082dd38, 0x0985039e, 0x72469c44) == 0xe06476cd
  {}

  lemma Round3d()
    ensures FWord(0x3b887a6d, 0xa082dd38, 0x0985039e, 0x72469c44, 0x750a2bc3) == 0x32fcf829
  {}

  lemma Round4a()
    ensures FWord(0x41a544ef, 0x026765d5, 0xf331c06b, 0xe06476cd, 0x32fcf829) == 0xfbffce5c
  {}

  lemma Round4b()
    ensures FWord(0x7f5b52a8, 0xf331c06b, 0xe06476cd, 0x32fcf829, 0x026765d5) == 0x98fee1d9
  {}

  lemma Round4c()
    ensures FWord(0x3b2571b6, 0xe06476cd, 0x32fcf829, 0x026765d5, 0xf331c06b) == 0x39dfd79c
  {}

  lemma Round4d()
    ensures FWord(0x00ad0bdb, 0x32fcf829, 0x026765d5, 0xf331c06b, 0xe06476cd) == 0xa7e8877b
  {}

  lemma Round5a()
    ensures FWord(0xf8c6d1d4, 0xfbffce5c, 0x98fee1d9, 0x39dfd79c, 0xa7e8877b) == 0xf8b79591
  {}

  lemma Round5b()
    ensures FWord(0x879d837c, 0x98fee1d9, 0x39dfd79c, 0xa7e8877b, 0xfbffce5c) == 0x539a1390
  {}

  lemma Round5c()
    ensures FWord(0xbcb8f2ca, 0x39dfd79c, 0xa7e8877b, 0xfbffce5c, 0x98fee1d9) == 0x48977e04
  {}

  lemma Round5d()
    ensures FWord(0xbc15f911, 0xa7e8877b, 0xfbffce5c, 0x98fee1d9, 0x39dfd79c) == 0xcbe4117c
  {}

  lemma Round6a()
    ensures FWord(0x7aa3886d, 0xf8b79591, 0x539a1390, 0x48977e04, 0xcbe4117c) == 0x29756f64
  {}

  lemma Round6b()
    ensures FWord(0xfd3e0b11, 0x539a1390, 0x48977e04, 0xcbe4117c, 0xf8b79591) == 0x45bc6cf7
  {}

  lemma Round6c()
    ensures FWord(0x4186f9db, 0x48977e04, 0xcbe4117c, 0xf8b79591, 0x539a1390) == 0xa69319fd
  {}

  lemma Round6d()
    ensures FWord(0xfd9300ca, 0xcbe4117c, 0xf8b79591, 0x539a1390, 0x48977e04) == 0xfb34c57e
  {}

  lemma Round7a()
    ensures FWord(0x0ef7544e, 0x29756f64, 0x45bc6cf7, 0xa69319fd, 0xfb34c57e) == 0x5956c7eb
  {}

  lemma Round7b()
    ensures FWord(0xf3c95f5f, 0x45bc6cf7, 0xa69319fd, 0xfb34c57e, 0x29756f64) == 0xd6b10955
  {}

  lemma Round7c()
    ensures FWord(0xb24fa684, 0xa69319fd, 0xfb34c57e, 0x29756f64, 0x45bc6cf7) == 0xa92e772e
  {}

  lemma Round7d()
    ensures FWord(0x4fdca64e, 0xfb34c57e, 0x29756f64, 0x45bc6cf7, 0xa69319fd) == 0xc4219511
  {}

  lemma Round8a()
    ensures FWord(0x2173d2ea, 0x5956c7eb, 0xd6b10955, 0xa92e772e, 0xc4219511) == 0x09dd760d
  {}

  lemma Round8b()
    ensures FWord(0xd2ba8db5, 0xd6b10955, 0xa92e772e, 0xc4219511, 0x5956c7eb) == 0x48145764
  {}

  lemma Round8c()
    ensures FWord(0x60f52b31, 0xa92e772e, 0xc4219511, 0x5956c7eb, 0xd6b10955) == 0x5f96706a
  {}

  lemma Round8d()
    ensures FWord(0x2f298d7f, 0xc4219511, 0x5956c7eb, 0xd6b10955, 0xa92e772e) == 0x0188082a
  {}

  lemma Round9a()
    ensures FWord(0xf36677ac, 0x09dd760d, 0x48145764, 0x5f96706a, 0x0188082a) == 0xa255c118
  {}

  lemma Round9b()
    ensures FWord(0x21dcfa19, 0x48145764, 0x5f96706a, 0x0188082a, 0x09dd760d) == 0x735e4da9
  {}

  lemma Round9c()
    ensures FWord(0x4129d128, 0x5f96706a, 0x0188082a, 0x09dd760d, 0x48145764) == 0x1274b9ef
  {}

  lemma Round9d()
    ensures FWord(0x6e005c57, 0x0188082a, 0x09dd760d, 0x48145764, 0x5f96706a) == 0x1d7813fb
  {}

  lemma LastRound()
    ensures FFinal(Columns(0xa8f914d0, 0x8925eec9, 0xc80c3fe1, 0xa60c63b6),
                   Columns(0xa255c118, 0x735e4da9, 0x1274b9ef, 0x1d7813fb))
            == Columns(0x0c6bf77d, 0xb399b81a, 0x47f0423e, 0x6f541bb9)
  {}

  lemma Rounds1to3(i: nat)
    requires 1 <= i <= 3
    ensures FRound(RoundKey(i), Trace(i - 1)) == Trace(i)
  {
    hide FWord;
    match i
    case 1 =>
      Round1a();
      Round1b();
      Round1c();
      Round1d();
    case 2 =>
      Round2a();
      Round2b();
      Round2c();
      Round2d();
    case _ =>
      Round3a();
      Round3b();
      Round3c();
      Round3d();
  }

  lemma Rounds4to6(i: nat)
    requires 4 <= i <= 6
    ensures FRound(RoundKey(i), Trace(i - 1)) == Trace(i)
  {
    hide FWord;
    match i
    case 4 =>
      Round4a();
      Round4b();
      Round4c();
      Round4d();
    case 5 =>
      Round5a();
      Round5b();
      Round5c();
      Round5d();
    case _ =>
      Round6a();
      Round6b();
      Round6c();
      Round6d();
  }

  lemma Rounds7to9(i: nat)
    requires 7 <= i <= 9
    ensures FRound(RoundKey(i), Trace(i - 1)) == Trace(i)
  {
    hide FWord;
    match i
    case 7 =>
      Round7a();
      Round7b();
      Round7c();
      Round7d();
    case 8 =>
      Round8a();
      Round8b();
      Round8c();
      Round8d();
    case _ =>
      Round9a();
      Round9b();
      Round9c();
      Round9d();
  }

  lemma FirstSum()
    ensures State(Trace(0)) == Xor(Zeros(16), State(RoundKey(0)))
  {
    var zero := Columns(0, 0, 0, 0);
    AddKeyIsXor(RoundKey(0), zero);
    assert State(zero) == Zeros(16);
    assert AddKey(RoundKey(0), zero) == Trace(0);
  }

  lemma {:induction false} AllRounds(i: nat)
    requires i <= 9
    ensures |KeySchedule(KEY, 4)| == 11 && State(Trace(i)) == Rounds(KeySchedule(KEY, 4), Zeros(16), i)
  {
    hide FRound, State, Trace, RoundKey, KeySchedule, Round, Xor;
    RoundKeys(i);
    if i == 0 {
      FirstSum();
    } else {
      AllRounds(i - 1);
      if i <= 3 {
        Rounds1to3(i);
      } else if i <= 6 {
        Rounds4to6(i);
      } else {
        Rounds7to9(i);
      }
      FRoundIsRound(RoundKey(i), Trace(i - 1));
    }
  }

  // Main result: the cipher takes the zero block to the block the subkeys are made of.
  lemma ZeroBlockEncrypted()
    ensures Cipher(KeySchedule(KEY, 4), Zeros(16))
            == [0x7d, 0xf7, 0x6b, 0x0c, 0x1a, 0xb8, 0x99, 0xb3,
                0x3e, 0x42, 0xf0, 0x47, 0xb9, 0x1b, 0x54, 0x6f]
  {
    hide FFinal, Cipher, KeySchedule, Rounds;
    AllRounds(9);
    RoundKeys(10);
    CipherEnds(KeySchedule(KEY, 4), Zeros(16), RoundKey(10), Trace(9));
    LastRound();
    assert RoundKey(10) == Columns(0xa8f914d0, 0x8925eec9, 0xc80c3fe1, 0xa60c63b6);
  }

  // ----- the subkeys -----

  const L: seq<bv8> := [0x7d, 0xf7, 0x6b, 0x0c, 0x1a, 0xb8, 0x99, 0xb3,
                            0x3e, 0x42, 0xf0, 0x47, 0xb9, 0x1b, 0x54, 0x6f]

  const SUBKEY1: seq<bv8> := [0xfb, 0xee, 0xd6, 0x18, 0x35, 0x71, 0x33, 0x66,
                             0x7c, 0x85, 0xe0, 0x8f, 0x72, 0x36, 0xa8, 0xde]

  const SUBKEY2: seq<bv8> := [0xf7, 0xdd, 0xac, 0x30, 0x6a, 0xe2, 0x66, 0xcc,
                             0xf9, 0x0b, 0xc1, 0x1e, 0xe4, 0x6d, 0x51, 0x3b]

  lemma FirstProduct()
    ensures Cmac.MulU(L) == SUBKEY1
  {
    var r := Cmac.MulU(L);
    assert r[0] == 0xfb && r[1] == 0xee && r[2] == 0xd6 && r[3] == 0x18;
    assert r[4] == 0x35 && r[5] == 0x71 && r[6] == 0x33 && r[7] == 0x66;
    assert r[8] == 0x7c && r[9] == 0x85 && r[10] == 0xe0 && r[11] == 0x8f;
    assert r[12] == 0x72 && r[13] == 0x36 && r[14] == 0xa8 && r[15] == 0xde;
  }

  lemma SecondProduct()
    ensures Cmac.MulU(SUBKEY1) == SUBKEY2
  {
    var r := Cmac.MulU(SUBKEY1);
    assert r[0] == 0xf7 && r[1] == 0xdd && r[2] == 0xac && r[3] == 0x30;
    assert r[4] == 0x6a && r[5] == 0xe2 && r[6] == 0x66 && r[7] == 0xcc;
    assert r[8] == 0xf9 && r[9] == 0x0b && r[10] == 0xc1 && r[11] == 0x1e;
    assert r[12] == 0xe4 && r[13] == 0x6d && r[14] == 0x51 && r[15] == 0x3b;
  }

  // The 64-bit reduction, on the subkeys of the self-test for a cipher with short blocks.
  lemma ShortProduct()
    ensures Cmac.MulU([0x9d, 0x74, 0xe7, 0x39, 0x33, 0x17, 0x96, 0xc0])
            == [0x3a, 0xe9, 0xce, 0x72, 0x66, 0x2f, 0x2d, 0x9b]
  {}

  // Main result: the subkeys of CMAC under this key are the ones of the self-test.
  lemma SelfTestSubkeys()
    ensures Cmac.K1(AesCbc.Enc(KEY), 16) == SUBKEY1 && Cmac.K2(AesCbc.Enc(KEY), 16) == SUBKEY2
  {
    hide Cipher, KeySchedule, Cmac.MulU;
    ZeroBlockEncrypted();
    FirstProduct();
    SecondProduct();
  }

  // The tag of the empty message is the encryption of the bit 1 and zeros added to the second
  // subkey, and that of a whole block the encryption of the block added to the first.
  lemma SelfTestTags(m: Block)
    ensures Cmac.Mac(AesCbc.Enc(KEY), 16, [])
            == AesCbc.Enc(KEY)([0x77, 0xdd, 0xac, 0x30, 0x6a, 0xe2, 0x66, 0xcc,
                                0xf9, 0x0b, 0xc1, 0x1e, 0xe4, 0x6d, 0x51, 0x3b])
    ensures Cmac.Mac(AesCbc.Enc(KEY), 16, m) == AesCbc.Enc(KEY)(Xor(m, SUBKEY1))
  {
    hide AesCbc.Enc, Cmac.K1, Cmac.K2, XorByte;
    SelfTestSubkeys();
    FirstByte();
    EmptyBlock();
    XorZeros(Xor(m, SUBKEY1));
    assert m[0..] == m;
  }

  lemma FirstByte()
    ensures XorByte(0x80, 0xf7) == 0x77
  {}

  lemma XorZeros(b: Block)
    ensures Xor(b, Zeros(16)) == b
  {
    forall i | 0 <= i < 16 ensures XorByte(b[i], 0) == b[i] && XorByte(0, b[i]) == b[i] {}
  }

  lemma EmptyBlock()
    ensures Xor(Xor(Cmac.PadBlock(16, []), SUBKEY2), Zeros(16))
            == [0x77, 0xdd, 0xac, 0x30, 0x6a, 0xe2, 0x66, 0xcc, 0xf9, 0x0b, 0xc1, 0x1e, 0xe4, 0x6d, 0x51, 0x3b]
  {
    var p, x := Cmac.PadBlock(16, []), Xor(Cmac.PadBlock(16, []), SUBKEY2);
    FirstByte();
    assert p[0] == 0x80 && forall i :: 1 <= i < 16 ==> p[i] == 0;
    forall i | 1 <= i < 16 ensures x[i] == SUBKEY2[i] {
      ZeroByte(SUBKEY2[i]);
    }
    XorZeros(x);
    assert x == [0x77] + SUBKEY2[1..];
  }

  lemma ZeroByte(b: bv8)
    ensures XorByte(0, b) == b
  {}
}
