// src/csm_ber.c: lengths on one or more octets.
module Ber {
  import opened Memory
  import opened PacketArray

  // What csm_ber_write_len emits.
  function LenOctets(len: nat): (s: seq<Octet>)
    requires len < 0x1_0000
    ensures |s| == if len > 127 then 3 else 1
  {
    if len > 127 then [0x82, len / 0x100 % 0x80 + 0x80, len % 0x80] else [len]
  }

  // What csm_ber_read_len makes of a string: the length, the octets taken and the verdict.
  // More than two length octets are not taken at all.
  datatype Length = Length(value: nat, taken: nat, ok: bool)

  function ReadLenOf(s: seq<Octet>): (r: Length)
    ensures r.taken <= |s| && r.value < 0x1_0000
  {
    if s == [] then Length(0, 0, false)
    else if s[0] < 0x80 then Length(s[0], 1, true)
    else if s[0] == 0x81 && |s| >= 2 then Length(s[1], 2, true)
    else if s[0] == 0x82 && |s| >= 3 then Length(Be16(s[1], s[2]), 3, true)
    else if s[0] == 0x82 && |s| == 2 then Length(s[1], 2, false)
    else Length(0, 1, false)
  }

  // A length comes back exactly up to 127, and among the longer ones when the two bits that
  // the masks force are the ones it has.
  lemma LenRoundTrip(len: nat, rest: seq<Octet>)
    requires len < 0x1_0000
    ensures var r := ReadLenOf(LenOctets(len) + rest);
            && r.ok && r.taken == |LenOctets(len)|
            && (r.value == len <==> len <= 127 || (len >= 0x8000 && len % 0x100 < 0x80))
  {
    if len > 127 {
      var hi, lo := len / 0x100, len % 0x100;
      assert len == hi * 0x100 + lo;
      assert len % 0x80 == lo % 0x80;
    }
  }

  method WriteLen(a: CsmArray, len: nat) returns (ret: bool)
    requires a.Valid() && len < 0x1_0000
    modifies a`wr, a.buff
    ensures a.Valid()
    ensures ret == (old(a.Free()) >= |LenOctets(len)|)
    ensures ret ==> a.Written() == old(a.Written()) + LenOctets(len)
    ensures a.wr == old(a.wr) + Min(|LenOctets(len)|, old(a.Free()))
  {
    hide CsmArray.Written;
    var nbBytes := 1;
    ret := true;
    if len > 127 {
      nbBytes := nbBytes + 1;
      ret := a.WriteU8(0x80 + nbBytes);
      if ret {
        ret := a.WriteU8(len / 0x100 % 0x80 + 0x80);
      }
    }
    if ret {
      ret := a.WriteU8(len % 0x80);
    }
  }

  lemma Widen(n: int, b: Octet)
    ensures Be16(0, b) == b
    ensures 0 <= n < 0x100 ==> 0 <= Be16(n, b) % 0x1_0000 == Be16(n, b)
    ensures Be16(n, b) % 0x1_0000 >= 0 && Be16(0, b) % 0x1_0000 == b
  {}

  // The loop over at most two length octets.
  method ReadOctets(a: CsmArray, numoct: nat) returns (ret: bool, length: nat)
    requires a.Valid() && numoct <= 2
    modifies a`rd
    ensures a.Valid()
    ensures var t := old(a.Unread());
            var k := Min(numoct, |t|);
            && a.rd == old(a.rd) + k && a.Unread() == t[k..]
            && ret == (0 < numoct <= |t|)
            && length == if k == 0 then 0 else if k == 1 then t[0] else Be16(t[0], t[1])
  {
    hide Be16;
    ghost var t := a.Unread();
    ret, length := false, 0;
    var i := 0;
    while i < numoct
      invariant 0 <= i <= numoct && i <= |t|
      invariant a.Valid() && a.rd == old(a.rd) + i
      invariant ret == (i > 0)
      invariant length == if i == 0 then 0 else if i == 1 then t[0] else Be16(t[0], t[1])
    {
      assert |a.Unread()| == |t| - i;
      var got, b := a.ReadU8();
      if !got {
        ret := false;
        break;
      }
      assert b == t[i];
      Widen(length, b);
      length := Be16(length, b) % 0x1_0000;
      ret := true;
      i := i + 1;
    }
    assert a.Unread() == t[i..];
  }

  method ReadLen(a: CsmArray) returns (ret: bool, length: nat)
    requires a.Valid()
    modifies a`rd
    ensures a.Valid()
    ensures var r := ReadLenOf(old(a.Unread()));
            && ret == r.ok && length == r.value && a.rd == old(a.rd) + r.taken
            && a.Unread() == old(a.Unread())[r.taken..]
  {
    hide Be16;
    ghost var s := a.Unread();
    ret, length := false, 0;
    var got, b := a.ReadU8();
    if got {
      length := b;
      if length >= 0x80 {
        var numoct := length % 0x80;
        length := 0;
        if numoct <= 2 {
          ret, length := ReadOctets(a, numoct);
        }
      } else {
        ret := true;
      }
    }
  }
}
