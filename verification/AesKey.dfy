// The key expansion of FIPS 197, section 5.2, on column words.
module AesKey {
  import opened Bytes
  import opened Gf256
  import opened AesTables
  import opened AesWords

  predicate KeyBits(keybits: int) { keybits == 128 || keybits == 192 || keybits == 256 }

  function SubWord(w: bv32): bv32
  {
    SBox32(w)
  }

  // [a0, a1, a2, a3] becomes [a1, a2, a3, a0].
  function RotWord(w: bv32): bv32
  {
    Word([B1(w), B2(w), B3(w), B0(w)])
  }

  // x to the power j - 1.
  function RconByte(j: nat): bv8
    requires j >= 1
  {
    if j == 1 then 1 else XTime(RconByte(j - 1))
  }

  function KeyWord(key: seq<bv8>, nk: nat, i: nat): bv32
    requires nk > 0 && |key| == 4 * nk
    decreases i
  {
    if i < nk then Word(key[4 * i..4 * i + 4])
    else
      var temp := KeyWord(key, nk, i - 1);
      var t :=
        if i % nk == 0 then Xor32(SubWord(RotWord(temp)), RconByte(i / nk) as bv32)
        else if nk > 6 && i % nk == 4 then SubWord(temp)
        else temp;
      Xor32(KeyWord(key, nk, i - nk), t)
  }

  // The table of round constants of aes.c.
  function RCON(i: nat): bv32
    requires i < 10
  {
    match i
    case 0 => 0x01 case 1 => 0x02 case 2 => 0x04 case 3 => 0x08 case 4 => 0x10
    case 5 => 0x20 case 6 => 0x40 case 7 => 0x80 case 8 => 0x1B case 9 => 0x36
  }

  lemma RconTable()
    ensures RconByte(1) == 0x01 && RconByte(2) == 0x02 && RconByte(3) == 0x04 && RconByte(4) == 0x08
    ensures RconByte(5) == 0x10 && RconByte(6) == 0x20 && RconByte(7) == 0x40 && RconByte(8) == 0x80
    ensures RconByte(9) == 0x1B && RconByte(10) == 0x36
  {
    assert RconByte(3) == 0x04;
    assert RconByte(5) == 0x10;
    assert RconByte(7) == 0x40;
    assert RconByte(9) == 0x1B;
  }

  lemma RconEntry(i: nat)
    requires i < 10
    ensures RCON(i) == RconByte(i + 1) as bv32
  {
    hide RconByte;
    RconTable();
  }

  // The expression of the schedules for the first word of a group.
  function Core(w: bv32, rc: bv32, last: bv32): bv32
  {
    Chain(Xor32(w, rc), FSb(B1(last)) as bv32, P1(FSb(B2(last))), P2(FSb(B3(last))), P3(FSb(B0(last))))
  }

  // The expression for word 12 of a group of the 256-bit schedule.
  function Half(w: bv32, last: bv32): bv32
  {
    Chain(w, FSb(B0(last)) as bv32, P1(FSb(B1(last))), P2(FSb(B2(last))), P3(FSb(B3(last))))
  }

  lemma SameColumn(v: bv32, w: bv32)
    requires Column(v) == Column(w)
    ensures v == w
  {
    WordColumn(v);
    WordColumn(w);
  }

  lemma XorShuffle(s: seq<bv8>, a: seq<bv8>, r: seq<bv8>)
    requires |s| == |a| == |r|
    ensures Xor(s, Xor(a, r)) == Xor(a, Xor(s, r))
    ensures Xor(s, a) == Xor(a, s)
  {
    hide XorByte;
    forall i | 0 <= i < |s|
      ensures Xor(s, Xor(a, r))[i] == Xor(a, Xor(s, r))[i] && Xor(s, a)[i] == Xor(a, s)[i]
    {
      XorAssoc(s[i], a[i], r[i]);
      XorComm(s[i], a[i]);
      XorAssoc(a[i], s[i], r[i]);
    }
  }

  lemma CoreIsSpec(w: bv32, rc: bv32, last: bv32)
    ensures Core(w, rc, last) == Xor32(w, Xor32(SubWord(RotWord(last)), rc))
  {
    hide Column, Xor32, Chain, B0, B1, B2, B3, FSb, Word, Xor, XorByte, P1, P2, P3;
    var b := [FSb(B1(last)), FSb(B2(last)), FSb(B3(last)), FSb(B0(last))];
    RotBytes(last);
    assert Column(SubWord(RotWord(last))) == b by {
      ColumnWord(b);
    }
    PlacedChain(Xor32(w, rc), b[0], b[1], b[2], b[3]);
    ColumnXor(w, rc);
    ColumnXor(SubWord(RotWord(last)), rc);
    ColumnXor(w, Xor32(SubWord(RotWord(last)), rc));
    XorShuffle(b, Column(w), Column(rc));
    SameColumn(Core(w, rc, last), Xor32(w, Xor32(SubWord(RotWord(last)), rc)));
  }

  lemma RotBytes(w: bv32)
    ensures var r := RotWord(w); B0(r) == B1(w) && B1(r) == B2(w) && B2(r) == B3(w) && B3(r) == B0(w)
  {
    hide B0, B1, B2, B3, Word;
    ColumnWord([B1(w), B2(w), B3(w), B0(w)]);
  }

  lemma HalfIsSpec(w: bv32, last: bv32)
    ensures Half(w, last) == Xor32(w, SubWord(last))
  {
    hide Column, Xor32, Chain, B0, B1, B2, B3, FSb, Word, Xor, XorByte, P1, P2, P3;
    var b := [FSb(B0(last)), FSb(B1(last)), FSb(B2(last)), FSb(B3(last))];
    ColumnWord(b);
    PlacedChain(w, b[0], b[1], b[2], b[3]);
    ColumnXor(w, SubWord(last));
    XorShuffle(b, Column(w), Column(w));
    SameColumn(Half(w, last), Xor32(w, SubWord(last)));
  }
}
