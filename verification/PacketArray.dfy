// src/csm_array.c: a buffer with a write index and a read index, both counted from an offset,
// that every coder of the association layer works on.
module PacketArray {
  import opened Memory

  type Octet = n: int | 0 <= n < 256

  // Indexes are 32-bit.
  const WRAP: nat := 0x1_0000_0000

  // A 16-bit value, most significant octet first.
  function Be16(hi: int, lo: int): int { hi * 0x100 + lo }

  // A 32-bit value, most significant octet first.
  function Be32(n: nat): (s: seq<Octet>)
    requires n < 0x1_0000_0000
    ensures |s| == 4
  {
    [n / 0x1000000, n / 0x10000 % 0x100, n / 0x100 % 0x100, n % 0x100]
  }

  function Value32(s: seq<Octet>): (n: nat)
    requires |s| == 4
    ensures n < 0x1_0000_0000
  {
    var a: int, b: int, c: int, d: int := s[0], s[1], s[2], s[3];
    a * 0x1000000 + b * 0x10000 + c * 0x100 + d
  }

  lemma Be32OfValue(s: seq<Octet>)
    requires |s| == 4
    ensures Be32(Value32(s)) == s
  {
    var a: int, b: int, c: int, d: int := s[0], s[1], s[2], s[3];
    var n := Value32(s);
    Split24(a, b * 0x10000 + c * 0x100 + d);
    Split16(a * 0x100 + b, c * 0x100 + d);
    Split8(a, b);
    Split8(a * 0x10000 + b * 0x100 + c, d);
    Split8(a * 0x100 + b, c);
  }

  // Octets read as a number, the most significant one first.
  function Number(s: seq<Octet>): int
  {
    if s == [] then 0 else Number(s[..|s| - 1]) * 0x100 + s[|s| - 1]
  }

  lemma Number4(s: seq<Octet>)
    requires |s| == 4
    ensures Number(s) == Value32(s)
  {
    var a: int, b: int, c: int, d: int := s[0], s[1], s[2], s[3];
    assert s[..3][..2] == s[..2] && s[..2][..1] == s[..1] && s[..1][..0] == [];
    assert Number(s[..1]) == a;
    assert Number(s[..2]) == a * 0x100 + b;
    assert Number(s[..3]) == (a * 0x100 + b) * 0x100 + c;
  }

  // Four octets are written and read as the number they are.
  lemma Be32Reads(n: nat, s: seq<Octet>)
    requires n < 0x1_0000_0000 && |s| == 4
    ensures Number(s) == n <==> s == Be32(n)
    ensures Value32(s) == Number(s)
  {
    hide Number, Value32, Be32;
    Number4(s);
    Number4(Be32(n));
    ValueOfBe32(n);
    Be32OfValue(s);
  }

  lemma ValueOfBe32(n: nat)
    requires n < 0x1_0000_0000
    ensures Value32(Be32(n)) == n
  {
    var q := n / 0x100;
    var r := q / 0x100;
    assert q / 0x100 == n / 0x10000 && r / 0x100 == n / 0x1000000;
  }

  lemma Split24(q: int, r: int)
    requires 0 <= r < 0x1000000
    ensures (q * 0x1000000 + r) / 0x1000000 == q
  {}

  lemma Split16(q: int, r: int)
    requires 0 <= r < 0x10000
    ensures (q * 0x10000 + r) / 0x10000 == q
  {}

  lemma Split8(q: int, r: int)
    requires 0 <= r < 0x100
    ensures (q * 0x100 + r) / 0x100 == q && (q * 0x100 + r) % 0x100 == r
  {}

  class CsmArray {
    var rd: nat
    var wr: nat
    var offset: nat
    var size: nat
    var buff: array<Octet>

    // The invariant of the indexes; the buffer holds at least size octets.
    ghost predicate Valid()
      reads this
    {
      size <= buff.Length && offset + wr <= size && offset + rd <= size < 0x8000_0000
    }

    // The octets between the indexes.
    ghost function Unread(): (s: seq<Octet>)
      requires Valid()
      reads this, buff
    {
      if wr > rd then buff[offset + rd..offset + wr] else []
    }

    ghost function Written(): (s: seq<Octet>)
      requires Valid()
      reads this, buff
    {
      buff[offset..offset + wr]
    }

    ghost function Free(): nat
      requires Valid()
      reads this
    {
      size - offset - wr
    }

    // An offset past the buffer makes the write index wrap in 32 bits, and nothing valid.
    constructor (buffer: array<Octet>, maxSize: nat, usedSize: nat, offset: nat)
      requires usedSize <= maxSize <= buffer.Length && maxSize < 0x8000_0000 && offset < 0x8000_0000
      ensures rd == 0 && buff == buffer && size == maxSize && this.offset == offset
      ensures Valid() <==> offset <= maxSize
      ensures wr == if offset <= maxSize then Min(usedSize, maxSize - offset) else WRAP + maxSize - offset
    {
      buff, rd, this.offset, size := buffer, 0, offset, maxSize;
      wr := if usedSize + offset >= maxSize then (maxSize - offset) % WRAP else usedSize;
      new;
      if offset > maxSize {
        assert maxSize - offset + WRAP == (maxSize - offset) % WRAP;
      }
    }

    method Get(index: nat) returns (ret: bool, byte: Octet)
      requires Valid()
      ensures ret == (index + offset < size)
      ensures byte == if ret then buff[index + offset] else 0
    {
      ret, byte := index + offset < size, 0;
      if ret {
        byte := buff[index + offset];
      }
    }

    method Set(index: nat, byte: Octet) returns (ret: bool)
      requires Valid()
      modifies buff
      ensures ret == (index + offset < size)
      ensures buff[..] == if ret then old(buff[..])[index + offset := byte] else old(buff[..])
      ensures index < wr ==> Written() == old(Written())[index := byte]
    {
      ret := index + offset < size;
      if ret {
        buff[index + offset] := byte;
      }
    }

    method WriteU8(byte: Octet) returns (ret: bool)
      requires Valid()
      modifies this`wr, buff
      ensures Valid()
      ensures ret == (old(Free()) >= 1)
      ensures wr == old(wr) + if ret then 1 else 0
      ensures buff[..] == if ret then Stored(old(buff[..]), offset + old(wr), [byte]) else old(buff[..])
      ensures Written() == old(Written()) + if ret then [byte] else []
    {
      ret := size - (wr + offset) >= 1;
      if ret {
        buff[wr + offset] := byte;
        wr := wr + 1;
      }
    }

    // The index saturates, and a jump onto the end of the buffer reports a failure although
    // every octet fitted. A jump so far that the sum with the offset wraps in 32 bits goes back.
    method WriterJump(n: nat) returns (ret: bool)
      requires Valid() && n < WRAP
      modifies this`wr
      ensures offset + old(wr) + n < WRAP ==>
                Valid() && wr == Min(old(wr) + n, size - offset) && ret == (n < old(Free()))
      ensures offset + old(wr) + n >= WRAP ==> ret && wr == (old(wr) + n) % WRAP && (Valid() <==> old(wr) + n >= WRAP)
    {
      ret := true;
      wr := (wr + n) % WRAP;
      if (wr + offset) % WRAP >= size {
        wr := size - offset;
        ret := false;
      }
    }

    method ReaderJump(n: nat) returns (ret: bool)
      requires Valid() && n < WRAP
      modifies this`rd
      ensures offset + old(rd) + n < WRAP ==>
                Valid() && rd == Min(old(rd) + n, size - offset) && ret == (offset + old(rd) + n < size)
      ensures offset + old(rd) + n >= WRAP ==> ret && rd == (old(rd) + n) % WRAP && (Valid() <==> old(rd) + n >= WRAP)
    {
      ret := true;
      rd := (rd + n) % WRAP;
      if (rd + offset) % WRAP >= size {
        rd := size - offset;
        ret := false;
      }
    }

    method WriteBuff(s: seq<Octet>) returns (ret: bool)
      requires Valid() && offset + wr + |s| < WRAP
      modifies this`wr, buff
      ensures Valid()
      ensures ret == (|s| <= old(Free()))
      ensures wr == old(wr) + if ret then |s| else 0
      ensures buff[..] == if ret then Stored(old(buff[..]), offset + old(wr), s) else old(buff[..])
      ensures ret ==> Written() == old(Written()) + s
    {
      hide Stored;
      ret := wr + offset + |s| <= size;
      if ret {
        StoreAt(buff, wr + offset, s);
        StoredExtends(old(buff[..]), offset, offset + wr, s);
        assert buff[offset..offset + wr + |s|] == buff[..][offset..offset + wr + |s|];
        wr := wr + |s|;
      }
    }

    method ReadU8() returns (ret: bool, byte: Octet)
      requires Valid()
      modifies this`rd
      ensures Valid()
      ensures ret == (|old(Unread())| >= 1)
      ensures ret ==> byte == old(Unread())[0] && rd == old(rd) + 1 && Unread() == old(Unread())[1..]
      ensures !ret ==> rd == old(rd) && Unread() == []
    {
      ret, byte := wr > rd, 0;
      if ret {
        byte := buff[rd + offset];
        rd := rd + 1;
      }
    }

    method WriteU16(value: nat) returns (ret: bool)
      requires Valid() && value < 0x1_0000
      modifies this`wr, buff
      ensures Valid()
      ensures ret == (old(Free()) > 2)
      ensures wr == old(wr) + if old(Free()) >= 2 then 2 else 0
      ensures buff[..] == if old(Free()) < 2 then old(buff[..])
                          else Stored<Octet>(old(buff[..]), offset + old(wr), [value / 0x100, value % 0x100])
      ensures old(Free()) >= 2 ==> Written() == old(Written()) + [value / 0x100, value % 0x100]
    {
      hide Stored;
      ret := false;
      if size - (wr + offset) >= 2 {
        var octets: seq<Octet> := [value / 0x100, value % 0x100];
        ghost var m, at := buff[..], offset + wr;
        StoreAt(buff, wr + offset, octets);
        StoredExtends(m, offset, at, octets);
        assert buff[offset..at + 2] == buff[..][offset..at + 2] && m[offset..at] == old(Written());
        ret := WriterJump(2);
      }
    }

    method ReadU16() returns (ret: bool, value: nat)
      requires Valid()
      modifies this`rd
      ensures Valid()
      ensures ret == (|old(Unread())| >= 2 && offset + old(rd) + 2 < size)
      ensures |old(Unread())| >= 2 ==>
                && value == Be16(old(Unread())[0], old(Unread())[1])
                && rd == old(rd) + 2 && Unread() == old(Unread())[2..]
      ensures |old(Unread())| < 2 ==> rd == old(rd)
    {
      ret, value := false, 0;
      if wr > rd + 1 {
        value := Be16(buff[rd + offset], buff[rd + offset + 1]);
        ret := ReaderJump(2);
      }
    }

    method WriteU32(value: nat) returns (ret: bool)
      requires Valid() && value < 0x1_0000_0000
      modifies this`wr, buff
      ensures Valid()
      ensures ret == (old(Free()) > 4)
      ensures wr == old(wr) + if old(Free()) >= 4 then 4 else 0
      ensures old(Free()) >= 4 ==> buff[..] == Stored(old(buff[..]), offset + old(wr), Be32(value))
      ensures old(Free()) < 4 ==> buff[..] == old(buff[..])
      ensures old(Free()) >= 4 ==> Written() == old(Written()) + Be32(value)
    {
      ret := false;
      if size - (wr + offset) >= 4 {
        var at, s := wr + offset, Be32(value);
        forall i | 0 <= i < 4 { buff[at + i] := s[i]; }
        ret := WriterJump(4);
      }
    }

    method ReadU32() returns (ret: bool, value: nat)
      requires Valid()
      modifies this`rd
      ensures Valid()
      ensures ret == (|old(Unread())| >= 4 && offset + old(rd) + 4 < size)
      ensures |old(Unread())| >= 4 ==>
                && value == Value32(old(Unread())[..4])
                && rd == old(rd) + 4 && Unread() == old(Unread())[4..]
      ensures |old(Unread())| < 4 ==> rd == old(rd) && value == 0
    {
      ret, value := false, 0;
      if wr > rd + 3 {
        value := Value32(buff[rd + offset..rd + offset + 4]);
        ret := ReaderJump(4);
      }
    }
  }
}
