// share/crypto/gcm.c: the GCM context and its operations, over an arbitrary block cipher.
module Gcm {
  import opened Bytes
  import opened Memory
  import opened Gf128
  import opened Numbers
  import opened GcmSpec
  import opened GcmTable
  import opened GcmStream
  import GcmRing
  import GcmDetect

  const MODE_ENCRYPT: int := 1
  const MODE_DECRYPT: int := 0
  const ERR_AUTH_FAILED: int := -0x0012
  const ERR_BAD_INPUT: int := -0x0014

  class GcmContext {
    const E: Block -> Block
    const hl: array<bv64>
    const hh: array<bv64>
    const y: array<bv8>
    const buf: array<bv8>
    const baseEctr: array<bv8>
    var len: nat
    var addLen: nat
    var mode: int

    ghost predicate Shape()
    {
      && hl.Length == hh.Length == 16 && hl != hh
      && y.Length == buf.Length == baseEctr.Length == 16
      && y != buf && y != baseEctr && buf != baseEctr
    }

    // The first n entries hold the multiples 0..n-1 of h.
    ghost predicate Holds(n: nat, h: Elem)
      requires Shape() && n < 16
      reads hl, hh
    {
      Elem(hh[n], hl[n]) == Entry(n, h)
    }

    // The tables hold the sixteen small multiples of the hash subkey.
    ghost predicate Ready()
      reads hl, hh
    {
      Shape() && forall n :: 0 <= n < 16 ==> Elem(hh[n], hl[n]) == Entry(n, BlockElem(Subkey(E)))
    }

    // init and setkey: the tables are those of the key.
    constructor (E: Block -> Block)
      ensures this.E == E && Ready() && fresh(y) && fresh(buf) && fresh(baseEctr)
    {
      this.E := E;
      hl := new bv64[16];
      hh := new bv64[16];
      y := new bv8[16];
      buf := new bv8[16];
      baseEctr := new bv8[16];
      len, addLen, mode := 0, 0, MODE_ENCRYPT;
      new;
      GenTable();
    }

    method GenTable()
      requires Shape()
      modifies hl, hh
      ensures Ready()
    {
      hide BlockElem, Entry;
      var h := E(ZeroBlock);
      GenPowers(h);
      ghost var s := BlockElem(h);
      var i := 2;
      while i <= 8
        invariant i in {2, 4, 8, 16}
        invariant i <= 8 ==> Holds(i, s)
        invariant Holds(4, s) && Holds(8, s)
        invariant forall n :: 0 <= n < i ==> Elem(hh[n], hl[n]) == Entry(n, s)
        decreases 16 - i
      {
        GenSums(i, s);
        i := i * 2;
      }
    }

    // The first loop of gcm_gen_table: entries 0, 8, 4, 2, 1.
    method GenPowers(h: Block)
      requires Shape()
      modifies hl, hh
      ensures Holds(0, BlockElem(h)) && Holds(1, BlockElem(h)) && Holds(2, BlockElem(h))
      ensures Holds(4, BlockElem(h)) && Holds(8, BlockElem(h))
    {
      hide Join, Entry, MulP, GenHigh, Low;
      ghost var s := BlockElem(h);
      var vh := Join(h[0..4], h[4..8]);
      var vl := Join(h[8..12], h[12..16]);
      hl[8] := vl;
      hh[8] := vh;
      hh[0] := 0;
      hl[0] := 0;
      PowerEntries(s);
      var i := 4;
      while i > 0
        invariant i in {4, 2, 1, 0}
        invariant i == 4 ==> Elem(vh, vl) == s
        invariant i == 2 ==> Elem(vh, vl) == MulP(s)
        invariant i == 1 ==> Elem(vh, vl) == MulP(MulP(s))
        invariant Holds(0, s) && Holds(8, s)
        invariant i <= 2 ==> Holds(4, s)
        invariant i <= 1 ==> Holds(2, s)
        invariant i == 0 ==> Holds(1, s)
      {
        ShiftIsMulP(vh, vl);
        vh, vl := GenHigh(vh, vl), Low(vh, vl);
        hl[i] := vl;
        hh[i] := vh;
        i := i / 2;
      }
    }

    // One round of the second loop: entries i+1..2i-1 as sums.
    method GenSums(i: nat, ghost s: Elem)
      requires Shape() && i in {2, 4, 8}
      requires forall n :: 0 <= n < i ==> Elem(hh[n], hl[n]) == Entry(n, s)
      requires Holds(i, s) && Holds(8, s)
      modifies hl, hh
      ensures forall n :: 0 <= n < 2 * i ==> Elem(hh[n], hl[n]) == Entry(n, s)
      ensures hl[8] == old(hl[8]) && hh[8] == old(hh[8])
      ensures i == 2 ==> hl[4] == old(hl[4]) && hh[4] == old(hh[4])
    {
      hide Xor64, Entry;
      var vh, vl := hh[i], hl[i];
      var j := 1;
      while j < i
        invariant 1 <= j <= i
        invariant hh[i] == vh && hl[i] == vl
        invariant hl[8] == old(hl[8]) && hh[8] == old(hh[8])
        invariant i == 2 ==> hl[4] == old(hl[4]) && hh[4] == old(hh[4])
        invariant forall n :: 0 <= n < i + j ==> Elem(hh[n], hl[n]) == Entry(n, s)
      {
        EntrySum(i, j, s);
        hh[i + j] := Xor64(vh, hh[j]);
        hl[i + j] := Xor64(vl, hl[j]);
        j := j + 1;
      }
    }

    // One nibble of gcm_mult: shift by four bits, reduce by last4, add the table entry.
    method MultStep(zh: bv64, zl: bv64, nibble: bv8, ghost x: Block, ghost k: nat) returns (zh': bv64, zl': bv64)
      requires Ready()
      requires k < 31 && nibble == Nibble(x, k)
      requires Elem(zh, zl) == Tail(x, 4 * k + 4, BlockElem(Subkey(E)))
      ensures Elem(zh', zl') == Tail(x, 4 * k, BlockElem(Subkey(E)))
    {
      hide Nibble, Tail, Entry, BlockElem, High4, Low4, Xor64, MulP4, Small;
      NibbleBound(x, k);
      EntryOf(nibble, BlockElem(Subkey(E)));
      zh', zl' := High4(zh, zl), Low4(zh, zl);
      Shoup(Elem(zh, zl));
      Horner(x, k, BlockElem(Subkey(E)));
      zh' := Xor64(zh', hh[nibble as int]);
      zl' := Xor64(zl', hl[nibble as int]);
    }

    method Mult(x: array<bv8>, output: array<bv8>)
      requires Ready() && x.Length == output.Length == 16
      modifies output
      ensures output[..] == GMul(old(x[..]), Subkey(E))
    {
      hide Tail, Entry, BlockElem, Product, Nibble, Small;
      ghost var xs: Block := x[..];
      ghost var h := BlockElem(Subkey(E));
      var lo := x[15] & 0xf;
      NibblesOf(xs, 15);
      NibbleBound(xs, 31);
      EntryOf(lo, h);
      var zh := hh[lo as int];
      var zl := hl[lo as int];
      LastNibble(xs, h);
      var i := 15;
      while i >= 0
        invariant -1 <= i <= 15
        invariant x[..] == xs
        invariant Elem(zh, zl) == Tail(xs, if i == 15 then 124 else 8 * i + 8, h)
      {
        lo := x[i] & 0xf;
        var hi := x[i] >> 4;
        NibblesOf(xs, i);
        if i != 15 {
          zh, zl := MultStep(zh, zl, lo, xs, 2 * i + 1);
        }
        zh, zl := MultStep(zh, zl, hi, xs, 2 * i);
        i := i - 1;
      }
      ProductIsTail(xs, h);
      Store(Elem(zh, zl), output);
    }

    // ----- the stream -----

    // What the tables need to stay valid, and the length bound of the data so far.
    ghost predicate Valid()
      reads this, hl, hh
    {
      Ready() && len <= MAX_LEN && addLen < MAX_ADD
    }

    ghost function Abs(): Stream
      requires Shape()
      reads y, buf
    {
      Stream(y[..], buf[..])
    }

    // GHASH of a byte string into acc, the loops of mbedtls_gcm_starts.
    method AbsorbInto(acc: array<bv8>, p: seq<bv8>)
      requires Ready() && acc.Length == 16
      modifies acc
      ensures acc[..] == Absorb(Subkey(E), old(acc[..]), p)
    {
      hide GMul, Absorb;
      ghost var h := Subkey(E);
      ghost var acc0: Block := acc[..];
      var pos := 0;
      AbsorbNone(h, acc0);
      while pos < |p|
        invariant 0 <= pos <= |p| && (pos % 16 == 0 || pos == |p|)
        invariant acc[..] == Absorb(h, acc0, p[..pos])
      {
        var useLen := if |p| - pos < 16 then |p| - pos else 16;
        ghost var before: Block := acc[..];
        XorInto(acc, p[pos..pos + useLen]);
        Mult(acc, acc);
        AbsorbLast(h, acc0, p[..pos], p[pos..pos + useLen]);
        assert p[..pos] + p[pos..pos + useLen] == p[..pos + useLen];
        pos := pos + useLen;
      }
      assert p[..pos] == p;
    }

    method Starts(mode: int, iv: seq<bv8>, add: seq<bv8>) returns (ret: int)
      requires Ready()
      modifies `len, `addLen, `mode, y, buf, baseEctr
      ensures ret == if |iv| == 0 || |iv| >= MAX_ADD || |add| >= MAX_ADD then ERR_BAD_INPUT else 0
      ensures ret == 0 ==> Valid() && this.mode == mode && len == 0 && addLen == |add|
      ensures ret == 0 ==> y[..] == CodeJ0(E, iv) && baseEctr[..] == E(CodeJ0(E, iv))
      ensures ret == 0 ==> buf[..] == Absorb(Subkey(E), ZeroBlock, add)
      ensures ret != 0 ==> y[..] == old(y[..]) && buf[..] == old(buf[..]) && baseEctr[..] == old(baseEctr[..])
      ensures ret != 0 ==> len == old(len) && addLen == old(addLen) && this.mode == old(this.mode)
    {
      hide Absorb, GMul, CodeIvLength, Entry;
      if |iv| == 0 || |iv| >= MAX_ADD || |add| >= MAX_ADD {
        return ERR_BAD_INPUT;
      }
      Fill(y);
      Fill(buf);
      this.mode := mode;
      len := 0;
      addLen := 0;
      if |iv| == 12 {
        forall i | 0 <= i < 12 { y[i] := iv[i]; }
        y[15] := 1;
        assert y[..] == iv + [0, 0, 0, 1];
      } else {
        AbsorbInto(y, iv);
        XorInto(y, CodeIvLength(|iv|));
        Mult(y, y);
        IvHash(Subkey(E), iv, CodeIvLength(|iv|));
      }
      Copy(E(y[..]), baseEctr);
      addLen := |add|;
      assert buf[..] == ZeroBlock;
      AbsorbInto(buf, add);
      return 0;
    }

    // One byte of the update loop: masked from inp to outp, its ciphertext side hashed.
    method CryptByte(mem: array<bv8>, inp: nat, outp: nat, i: nat, e: bv8)
      requires Shape() && mem != buf
      requires i < 16 && inp < mem.Length && outp < mem.Length
      modifies mem, buf
      ensures mem[outp] == XorByte(old(mem[inp]), e)
      ensures forall k :: 0 <= k < mem.Length && k != outp ==> mem[k] == old(mem[k])
      ensures buf[i] == HashedByte(mode, old(buf[i]), old(mem[inp]), mem[outp])
      ensures forall k :: 0 <= k < 16 && k != i ==> buf[k] == old(buf[k])
    {
      hide XorByte;
      if mode == MODE_DECRYPT {
        buf[i] := XorByte(buf[i], mem[inp]);
      }
      ByteXorSwap(e, mem[inp]);
      mem[outp] := XorByte(e, mem[inp]);
      if mode == MODE_ENCRYPT {
        buf[i] := XorByte(buf[i], mem[outp]);
      }
    }

    // The byte loop over one block, or over the short last one.
    method CryptBytes(mem: array<bv8>, inp: nat, outp: nat, n: nat, ectr: Block)
      requires Shape() && mem != buf
      requires 0 < n <= 16 && inp + n <= mem.Length && outp + n <= mem.Length
      requires outp <= inp || inp + n <= outp
      modifies mem, buf
      ensures mem[outp..outp + n] == Xor(old(mem[inp..inp + n]), ectr[..n])
      ensures forall k :: 0 <= k < mem.Length && !(outp <= k < outp + n) ==> mem[k] == old(mem[k])
      ensures buf[..] == XorPrefix(old(buf[..]), Hashed(mode, old(mem[inp..inp + n]), mem[outp..outp + n]))
    {
      hide XorByte, HashedByte;
      ghost var p := mem[inp..inp + n];
      ghost var acc: Block := buf[..];
      var i := 0;
      while i < n
        invariant 0 <= i <= n
        invariant forall k :: 0 <= k < i ==> mem[outp + k] == XorByte(p[k], ectr[k])
        invariant forall k :: 0 <= k < mem.Length && !(outp <= k < outp + i) ==> mem[k] == old(mem[k])
        invariant forall k :: i <= k < 16 ==> buf[k] == acc[k]
        invariant forall k :: 0 <= k < i ==> buf[k] == HashedByte(mode, acc[k], p[k], mem[outp + k])
      {
        assert mem[inp + i] == p[i];
        CryptByte(mem, inp + i, outp + i, i, ectr[i]);
        i := i + 1;
      }
      ghost var c := mem[outp..outp + n];
      assert c == Xor(p, ectr[..n]);
      HashedBytes(mode, acc, p, c, buf[..]);
    }

    // inc32 in place: the loop that stops at the first byte that does not wrap.
    method Increment()
      requires Shape()
      modifies y
      ensures y[..] == Inc32(old(y[..]))
    {
      ghost var y0: Block := y[..];
      var i := 16;
      var more := true;
      while i > 12 && more
        invariant 12 <= i <= 16
        invariant forall k :: i <= k < 16 && (more || k > i) ==> y0[k] == 0xff && y[k] == 0
        invariant forall k :: 0 <= k < i ==> y[k] == y0[k]
        invariant !more ==> i < 16 && y[i] == y0[i] + 1 && y[i] != 0
        decreases i, more
      {
        i := i - 1;
        y[i] := y[i] + 1;
        more := y[i] == 0;
      }
      Incremented(y0, y[..], i, more);
    }

    // One pass of the update loop.
    method Pass(mem: array<bv8>, inp: nat, outp: nat, n: nat)
      requires Ready() && mem != buf && mem != y
      requires 0 < n <= 16 && inp + n <= mem.Length && outp + n <= mem.Length
      requires outp <= inp || inp + n <= outp
      modifies mem, y, buf
      ensures mem[..] == Stored(old(mem[..]), outp, Output(E, old(Abs()), old(mem[..])[inp..inp + n]))
      ensures Abs() == Next(E, mode, old(Abs()), old(mem[..])[inp..inp + n])
    {
      hide Inc32, GMul, Absorb, Gctr, Hashed, XorPrefix, Xor, Entry, Stored;
      assert mem[inp..inp + n] == mem[..][inp..inp + n];
      Increment();
      var ectr := E(y[..]);
      CryptBytes(mem, inp, outp, n, ectr);
      IsWritten(old(mem[..]), mem[..], outp, n);
      Mult(buf, buf);
      OneBlock(E, mode, old(Abs()), old(mem[inp..inp + n]));
    }

    // The update loop.
    method Process(mem: array<bv8>, inp: nat, outp: nat, length: nat)
      requires Ready() && mem != buf && mem != y
      requires inp + length <= mem.Length && outp + length <= mem.Length
      requires outp <= inp || inp + length <= outp
      modifies mem, y, buf
      ensures mem[..] == Stored(old(mem[..]), outp, Output(E, old(Abs()), old(mem[..])[inp..inp + length]))
      ensures Abs() == Next(E, mode, old(Abs()), old(mem[..])[inp..inp + length])
    {
      hide Output, Next, Entry, Stored;
      ghost var st := Abs();
      ghost var m := mem[..];
      ghost var p := m[inp..inp + length];
      var pos := 0;
      UpdateNone(E, mode, st);
      StoredNone(m, outp);
      while pos < length
        invariant 0 <= pos <= length && (pos % 16 == 0 || pos == length)
        invariant mem[..] == Stored(m, outp, Output(E, st, p[..pos]))
        invariant Abs() == Next(E, mode, st, p[..pos])
      {
        var n := if length - pos < 16 then length - pos else 16;
        Advance(E, mode, st, m, inp, outp, length, pos, n);
        ghost var before, w, b := Abs(), mem[..], p[pos..pos + n];
        assert w[inp + pos..inp + pos + n] == b;
        Pass(mem, inp + pos, outp + pos, n);
        assert Abs() == Next(E, mode, before, b);
        assert mem[..] == Stored(w, outp + pos, Output(E, before, b));
        pos := pos + n;
      }
      assert p[..pos] == p;
    }

    // Input and output are regions of one memory, so that they may overlap as the caller likes.
    method Update(mem: array<bv8>, inp: nat, outp: nat, length: nat) returns (ret: int)
      requires Valid()
      requires mem != buf && mem != y
      requires inp + length <= mem.Length && outp + length <= mem.Length && length < TWO64
      modifies `len, mem, y, buf
      ensures Valid()
      ensures ret == if (inp < outp < inp + length) || old(len) + length > MAX_LEN then ERR_BAD_INPUT else 0
      ensures ret != 0 ==> len == old(len) && Abs() == old(Abs()) && mem[..] == old(mem[..])
      ensures ret == 0 ==> len == old(len) + length
      ensures ret == 0 ==>
                mem[..] == Stored(old(mem[..]), outp, Output(E, old(Abs()), old(mem[..])[inp..inp + length]))
      ensures ret == 0 ==> Abs() == Next(E, mode, old(Abs()), old(mem[..])[inp..inp + length])
    {
      hide Output, Next, Entry;
      if outp > inp && outp - inp < length {
        return ERR_BAD_INPUT;
      }
      var total := (len + length) % TWO64;
      if total < len || total > MAX_LEN {
        return ERR_BAD_INPUT;
      }
      len := total;
      Process(mem, inp, outp, length);
      return 0;
    }

    method Finish(tag: array<bv8>, tagLen: nat) returns (ret: int)
      requires Valid() && (tagLen <= 16 ==> tagLen <= tag.Length)
      requires tag != buf && tag != baseEctr
      modifies tag, buf
      ensures ret == if tagLen > 16 || tagLen < 4 then ERR_BAD_INPUT else 0
      ensures ret != 0 ==> tag[..] == old(tag[..]) && buf[..] == old(buf[..])
      ensures ret == 0 ==> buf[..] == if len == 0 && addLen == 0 then old(buf[..])
                                      else GMul(Xor(old(buf[..]), Lengths(addLen, len)), Subkey(E))
      ensures ret == 0 && (len != 0 || addLen != 0) ==>
                forall l: Block :: BigEndian(l[..8]) == 8 * addLen && BigEndian(l[8..]) == 8 * len ==>
                  buf[..] == GMul(Xor(old(buf[..]), l), Subkey(E))
      ensures ret == 0 ==>
              && tagLen <= tag.Length
              && tag[..tagLen] == FinishTag(E, old(baseEctr[..]), old(buf[..]), addLen, len, tagLen)
      ensures tagLen <= tag.Length ==> tag[tagLen..] == old(tag[tagLen..])
    {
      hide GMul, Lengths, Entry, XorByte, XorPrefix, BigEndian, U32BE, Xor;
      if tagLen > 16 || tagLen < 4 {
        return ERR_BAD_INPUT;
      }
      ghost var base: Block := baseEctr[..];
      Copy(baseEctr[..tagLen], tag);
      if len != 0 || addLen != 0 {
        var bits, addBits := 8 * len, 8 * addLen;
        var workBuf := U32BE(addBits / 0x1_0000_0000) + U32BE(addBits % 0x1_0000_0000)
                       + U32BE(bits / 0x1_0000_0000) + U32BE(bits % 0x1_0000_0000);
        WorkBuf(addLen, len, workBuf);
        XorInto(buf, workBuf);
        Mult(buf, buf);
        WholePrefix(old(buf[..]), Lengths(addLen, len));
        var i := 0;
        while i < tagLen
          invariant 0 <= i <= tagLen
          invariant buf[..] == GMul(Xor(old(buf[..]), Lengths(addLen, len)), Subkey(E))
          invariant forall k :: 0 <= k < i ==> tag[k] == XorByte(base[k], buf[k])
          invariant forall k :: i <= k < tagLen ==> tag[k] == base[k]
          invariant tag[tagLen..] == old(tag[tagLen..])
        {
          tag[i] := XorByte(tag[i], buf[i]);
          i := i + 1;
        }
      }
      forall l: Block | BigEndian(l[..8]) == 8 * addLen && BigEndian(l[8..]) == 8 * len
        ensures l == Lengths(addLen, len)
      {
        LengthsRead(addLen, len, l);
      }
      return 0;
    }

    method CryptAndTag(mode: int, mem: array<bv8>, length: nat, iv: seq<bv8>, add: seq<bv8>, inp: nat, outp: nat,
                       tagLen: nat, tag: array<bv8>) returns (ret: int)
      requires Ready() && Separate(mem) && Separate(tag) && mem != tag
      requires inp + length <= mem.Length && outp + length <= mem.Length && length < TWO64
      requires tagLen <= 16 ==> tagLen <= tag.Length
      modifies `len, `addLen, `mode, mem, tag, y, buf, baseEctr
      ensures Ready()
      ensures ret == Verdict(|iv|, |add|, length, inp, outp, tagLen)
      ensures ret == 0 ==>
                var x := old(mem[..])[inp..inp + length];
                var out := Gctr(E, Inc32(CodeJ0(E, iv)), x);
                && mem[..] == Stored(old(mem[..]), outp, out)
                && tag[..tagLen] == CodeTag(E, iv, add, Hashed(mode, x, out), tagLen)
      ensures tagLen <= tag.Length ==> tag[tagLen..] == old(tag[tagLen..])
      ensures StreamVerdict(|iv|, |add|, length, inp, outp) != 0 ==> mem[..] == old(mem[..])
      ensures StreamVerdict(|iv|, |add|, length, inp, outp) == 0 ==>
                mem[..] == Stored(old(mem[..]), outp, Gctr(E, Inc32(CodeJ0(E, iv)), old(mem[..])[inp..inp + length]))
    {
      hide Absorb, Gctr, Hashed, FinishTag, Stored, CodeJ0, Entry, Inc32, GMul, Xor, Lengths, BlockElem;
      ret := StartAndUpdate(mode, mem, length, iv, add, inp, outp);
      if ret == 0 {
        ghost var base: Block, acc: Block := baseEctr[..], buf[..];
        ret := Finish(tag, tagLen);
        if ret == 0 {
          assert tag[..tagLen] == FinishTag(E, base, acc, |add|, length, tagLen);
        }
      }
    }

    // A whole message in one update.
    method StartAndUpdate(mode: int, mem: array<bv8>, length: nat, iv: seq<bv8>, add: seq<bv8>, inp: nat, outp: nat)
      returns (ret: int)
      requires Ready() && Separate(mem)
      requires inp + length <= mem.Length && outp + length <= mem.Length && length < TWO64
      modifies `len, `addLen, `mode, mem, y, buf, baseEctr
      ensures Ready() && ret == StreamVerdict(|iv|, |add|, length, inp, outp)
      ensures ret != 0 ==> mem[..] == old(mem[..])
      ensures ret == 0 ==>
                var x := old(mem[..])[inp..inp + length];
                var out := Gctr(E, Inc32(CodeJ0(E, iv)), x);
                && Valid() && len == length && addLen == |add|
                && mem[..] == Stored(old(mem[..]), outp, out)
                && baseEctr[..] == E(CodeJ0(E, iv))
                && buf[..] == Absorb(Subkey(E), Absorb(Subkey(E), ZeroBlock, add), Hashed(mode, x, out))
    {
      hide Output, Next, Absorb, Inc32, Gctr, Hashed, Stored, CodeJ0, Entry, GMul;
      ret := Starts(mode, iv, add);
      if ret == 0 {
        UpdateIs(E, mode, Abs(), mem[..][inp..inp + length]);
        ret := Update(mem, inp, outp, length);
      }
    }

    ghost predicate Separate(a: array<bv8>)
    {
      a != y && a != buf && a != baseEctr
    }

    method AuthDecrypt(mem: array<bv8>, length: nat, iv: seq<bv8>, add: seq<bv8>, tag: seq<bv8>, tagLen: nat,
                       inp: nat, outp: nat) returns (ret: int)
      requires Ready() && Separate(mem)
      requires inp + length <= mem.Length && outp + length <= mem.Length && length < TWO64
      requires tagLen <= 16 ==> tagLen <= |tag|
      modifies `len, `addLen, `mode, mem, y, buf, baseEctr
      ensures Ready()
      ensures Verdict(|iv|, |add|, length, inp, outp, tagLen) != 0 ==>
                ret == Verdict(|iv|, |add|, length, inp, outp, tagLen)
      ensures StreamVerdict(|iv|, |add|, length, inp, outp) != 0 ==> mem[..] == old(mem[..])
      ensures StreamVerdict(|iv|, |add|, length, inp, outp) == 0
              && Verdict(|iv|, |add|, length, inp, outp, tagLen) != 0 ==>
                mem[..] == Stored(old(mem[..]), outp, Gctr(E, Inc32(CodeJ0(E, iv)), old(mem[..])[inp..inp + length]))
      ensures Verdict(|iv|, |add|, length, inp, outp, tagLen) == 0 ==>
                var c := old(mem[..])[inp..inp + length];
                if tag[..tagLen] == CodeTag(E, iv, add, c, tagLen) then
                  && ret == 0
                  && mem[..] == Stored(old(mem[..]), outp, Gctr(E, Inc32(CodeJ0(E, iv)), c))
                else
                  && ret == ERR_AUTH_FAILED
                  && mem[..] == Stored(old(mem[..]), outp, Zeros(length))
    {
      hide Inc32, Gctr, CodeTag, CodeJ0, Entry, XorByte;
      var checkTag := new bv8[16];
      ret := CryptAndTag(MODE_DECRYPT, mem, length, iv, add, inp, outp, tagLen, checkTag);
      if ret != 0 {
        return;
      }
      ghost var c := old(mem[..])[inp..inp + length];
      assert checkTag[..tagLen] == CodeTag(E, iv, add, c, tagLen);
      assert mem[..] == Stored(old(mem[..]), outp, Gctr(E, Inc32(CodeJ0(E, iv)), c));
      ghost var expected := checkTag[..tagLen];
      var diff: bv8 := 0;
      var i := 0;
      while i < tagLen
        invariant 0 <= i <= tagLen
        invariant checkTag[..tagLen] == expected
        invariant mem[..] == Stored(old(mem[..]), outp, Gctr(E, Inc32(CodeJ0(E, iv)), c))
        invariant diff == 0 <==> forall k :: 0 <= k < i ==> tag[k] == expected[k]
      {
        DiffBits(diff, tag[i], checkTag[i]);
        diff := diff | XorByte(tag[i], checkTag[i]);
        i := i + 1;
      }
      assert diff == 0 <==> tag[..tagLen] == expected;
      if diff != 0 {
        Zeroize(mem, outp, length);
        Rewritten(old(mem[..]), outp, Gctr(E, Inc32(CodeJ0(E, iv)), c), Zeros(length));
        return ERR_AUTH_FAILED;
      }
      return 0;
    }
  }

  // Main result: what is sealed under a key, an IV and associated data opens under the same ones
  // to the same text, wherever the three regions lie.
  method SealThenOpen(E: Block -> Block, mem: array<bv8>, length: nat, iv: seq<bv8>, add: seq<bv8>,
                      inp: nat, mid: nat, outp: nat, tagLen: nat) returns (sealRet: int, openRet: int)
    requires inp + length <= mem.Length && mid + length <= mem.Length && outp + length <= mem.Length && length < TWO64
    requires Verdict(|iv|, |add|, length, inp, mid, tagLen) == 0 && Verdict(|iv|, |add|, length, mid, outp, tagLen) == 0
    modifies mem
    ensures sealRet == 0 && openRet == 0
    ensures mem[..][outp..outp + length] == old(mem[..])[inp..inp + length]
  {
    hide Inc32, Gctr, CodeTag, CodeJ0, Entry, Stored, Hashed;
    var ctx := new GcmContext(E);
    var tag := new bv8[16];
    ghost var m, x := mem[..], mem[..][inp..inp + length];
    sealRet := ctx.CryptAndTag(MODE_ENCRYPT, mem, length, iv, add, inp, mid, tagLen, tag);
    ghost var c := Gctr(E, Inc32(CodeJ0(E, iv)), x);
    HashedSealed(x, c);
    StoredReads(m, mid, c);
    var t := tag[..tagLen];
    openRet := ctx.AuthDecrypt(mem, length, iv, add, t, tagLen, mid, outp);
    GctrInvolution(E, Inc32(CodeJ0(E, iv)), x);
    assert t[..tagLen] == t;
    StoredReads(Stored(m, mid, c), outp, x);
  }

  lemma HashedSealed(x: seq<bv8>, c: seq<bv8>)
    requires |x| == |c|
    ensures Hashed(MODE_ENCRYPT, x, c) == c
  {}

  // ----- contexts over whole messages -----

  // The checks of starts, any run of updates and finish.
  function PiecesVerdict(ivLen: nat, addLen: nat, length: nat, tagLen: nat): int
  {
    if ivLen == 0 || ivLen >= MAX_ADD || addLen >= MAX_ADD || length > MAX_LEN || tagLen > 16 || tagLen < 4 then
      ERR_BAD_INPUT
    else 0
  }

  // One update of a context on a piece of its own.
  method UpdatePiece(ctx: GcmContext, piece: seq<bv8>) returns (ret: int, output: seq<bv8>)
    requires ctx.Valid() && |piece| < TWO64
    modifies ctx`len, ctx.y, ctx.buf
    ensures ctx.Valid()
    ensures ret == if old(ctx.len) + |piece| > MAX_LEN then ERR_BAD_INPUT else 0
    ensures ret == 0 ==>
              && ctx.len == old(ctx.len) + |piece|
              && output == Output(ctx.E, old(ctx.Abs()), piece)
              && ctx.Abs() == Next(ctx.E, ctx.mode, old(ctx.Abs()), piece)
  {
    hide Output, Next, Entry;
    var mem := new bv8[|piece|](i requires 0 <= i < |piece| => piece[i]);
    assert mem[..] == piece && mem[..][0..|piece|] == piece;
    ghost var more := Output(ctx.E, ctx.Abs(), piece);
    StoredReads(piece, 0, more);
    ret := ctx.Update(mem, 0, 0, |piece|);
    output := mem[..];
  }

  // Any run of updates of a context.
  method RunUpdates(ctx: GcmContext, chunks: seq<seq<bv8>>) returns (ret: int, output: seq<bv8>)
    requires ctx.Valid() && |Flatten(chunks)| < TWO64
    modifies ctx`len, ctx.y, ctx.buf
    ensures ctx.Valid()
    ensures ret == if old(ctx.len) + |Flatten(chunks)| > MAX_LEN then ERR_BAD_INPUT else 0
    ensures ret == 0 ==>
              && ctx.len == old(ctx.len) + |Flatten(chunks)|
              && output == RunOutput(ctx.E, ctx.mode, old(ctx.Abs()), chunks)
              && ctx.Abs() == RunState(ctx.E, ctx.mode, old(ctx.Abs()), chunks)
  {
    hide Output, Next, Entry;
    ret, output := 0, [];
    var rest := chunks;
    ghost var st := ctx.Abs();
    ghost var all := RunOutput(ctx.E, ctx.mode, st, chunks);
    assert [] + all == all;
    while rest != []
      invariant ctx.Valid() && ret == 0
      invariant old(ctx.len) <= ctx.len && ctx.len + |Flatten(rest)| == old(ctx.len) + |Flatten(chunks)|
      invariant RunState(ctx.E, ctx.mode, st, chunks) == RunState(ctx.E, ctx.mode, ctx.Abs(), rest)
      invariant all == output + RunOutput(ctx.E, ctx.mode, ctx.Abs(), rest)
      decreases |rest|
    {
      var more;
      ret, more := UpdatePiece(ctx, rest[0]);
      if ret != 0 {
        return;
      }
      Associative(output, more, RunOutput(ctx.E, ctx.mode, ctx.Abs(), rest[1..]));
      output := output + more;
      rest := rest[1..];
    }
    assert output + [] == output;
  }

  // A context driven through starts, any list of updates and finish.
  method InPieces(E: Block -> Block, mode: int, iv: seq<bv8>, add: seq<bv8>, chunks: seq<seq<bv8>>, tagLen: nat)
    returns (ret: int, output: seq<bv8>, tag: seq<bv8>)
    requires |Flatten(chunks)| < TWO64
    ensures ret == PiecesVerdict(|iv|, |add|, |Flatten(chunks)|, tagLen)
    ensures ret == 0 ==>
              var st := Stream(CodeJ0(E, iv), Absorb(Subkey(E), ZeroBlock, add));
              && output == RunOutput(E, mode, st, chunks)
              && tag == FinishTag(E, E(CodeJ0(E, iv)), RunState(E, mode, st, chunks).acc, |add|, |Flatten(chunks)|,
                 tagLen)
  {
    hide Absorb, FinishTag, CodeJ0, Entry, Flatten, GMul, Xor, Lengths, BlockElem, Output, Next;
    output, tag := [], [];
    var ctx := new GcmContext(E);
    ret := ctx.Starts(mode, iv, add);
    if ret == 0 {
      ret, output := RunUpdates(ctx, chunks);
    }
    if ret == 0 {
      var check := new bv8[16];
      ret := ctx.Finish(check, tagLen);
      if ret == 0 {
        tag := check[..tagLen];
      }
    }
  }

  // Main result: a message in any pieces, all but the last whole blocks, is sealed to the
  // ciphertext and the tag of the standard, for initialisation vectors below 2^29 bytes.
  method SealInPieces(E: Block -> Block, iv: seq<bv8>, add: seq<bv8>, chunks: seq<seq<bv8>>, tagLen: nat)
    returns (ret: int, output: seq<bv8>, tag: seq<bv8>)
    requires |Flatten(chunks)| < TWO64 && WholeBlocks(chunks)
    ensures ret == PiecesVerdict(|iv|, |add|, |Flatten(chunks)|, tagLen)
    ensures ret == 0 && |iv| < 0x2000_0000 ==>
              && output == Ciphertext(E, iv, Flatten(chunks))
              && tag == Tag(E, iv, add, output, tagLen)
  {
    hide RunOutput, RunState, Absorb, FinishTag, Tag, CodeJ0, J0, Gctr, Inc32;
    ret, output, tag := InPieces(E, MODE_ENCRYPT, iv, add, chunks, tagLen);
    if ret == 0 && |iv| < 0x2000_0000 {
      EncryptRun(E, iv, add, chunks, tagLen);
      CodeIsStandard(E, iv, add, Ciphertext(E, iv, Flatten(chunks)), tagLen);
    }
  }

  // Main result: the ciphertext of p in any such pieces is opened to p, with the same tag.
  method OpenInPieces(E: Block -> Block, iv: seq<bv8>, add: seq<bv8>, ghost p: seq<bv8>, chunks: seq<seq<bv8>>,
                      tagLen: nat)
    returns (ret: int, output: seq<bv8>, tag: seq<bv8>)
    requires |p| < TWO64 && WholeBlocks(chunks) && 0 < |iv| < 0x2000_0000 && Flatten(chunks) == Ciphertext(E, iv, p)
    ensures ret == PiecesVerdict(|iv|, |add|, |p|, tagLen)
    ensures ret == 0 ==> output == p && tag == Tag(E, iv, add, Flatten(chunks), tagLen)
  {
    hide RunOutput, RunState, Absorb, FinishTag, Tag, CodeJ0, J0, Gctr, Inc32;
    ret, output, tag := InPieces(E, MODE_DECRYPT, iv, add, chunks, tagLen);
    if ret == 0 {
      DecryptRun(E, iv, add, p, chunks, tagLen);
      CodeIsStandard(E, iv, add, Flatten(chunks), tagLen);
    }
  }

  // The counter after the carry has stopped at byte i, or has run through.
  lemma Incremented(y: Block, z: Block, i: nat, more: bool)
    requires 12 <= i <= 16 && (more ==> i == 12) && (!more ==> i < 16 && z[i] == y[i] + 1)
    requires !more ==> z[i] != 0
    requires forall k :: i <= k < 16 && (more || k > i) ==> y[k] == 0xff && z[k] == 0
    requires forall k :: 0 <= k < i ==> z[k] == y[k]
    ensures z == Inc32(y)
  {
    hide Inc32, Carried;
    IncCarries(y);
    assert z[..12] == y[..12];
    assert z == z[..12] + [z[12], z[13], z[14], z[15]];
    CarryStops(y[12], y[13], y[14], y[15]);
    assert i == 12 || i == 13 || i == 14 || i == 15;
  }

  lemma CarryStops(a: bv8, b: bv8, c: bv8, d: bv8)
    ensures d + 1 != 0 ==> Carried(a, b, c, d) == [a, b, c, d + 1]
    ensures d == 0xff && c + 1 != 0 ==> Carried(a, b, c, d) == [a, b, c + 1, 0]
    ensures d == 0xff && c == 0xff && b + 1 != 0 ==> Carried(a, b, c, d) == [a, b + 1, 0, 0]
    ensures d == 0xff && c == 0xff && b == 0xff ==> Carried(a, b, c, d) == [a + 1, 0, 0, 0]
    ensures Carried(0xff, 0xff, 0xff, 0xff) == [0, 0, 0, 0]
  {}

  method Zeroize(mem: array<bv8>, at: nat, n: nat)
    requires at + n <= mem.Length
    modifies mem
    ensures mem[..] == Stored(old(mem[..]), at, Zeros(n))
  {
    forall k | at <= k < at + n { mem[k] := 0; }
  }

  lemma DiffBits(d: bv8, a: bv8, b: bv8)
    ensures d | XorByte(a, b) == 0 <==> d == 0 && a == b
  {}

  lemma Rewritten(m: seq<bv8>, at: nat, a: seq<bv8>, b: seq<bv8>)
    requires |a| == |b| && at + |a| <= |m|
    ensures Stored(Stored(m, at, a), at, b) == Stored(m, at, b)
  {}

  // The checks of mbedtls_gcm_starts and mbedtls_gcm_update, in their order.
  function StreamVerdict(ivLen: nat, addLen: nat, length: nat, inp: nat, outp: nat): int
  {
    if ivLen == 0 || ivLen >= MAX_ADD || addLen >= MAX_ADD then ERR_BAD_INPUT
    else if inp < outp < inp + length || length > MAX_LEN then ERR_BAD_INPUT
    else 0
  }

  // All the checks of mbedtls_gcm_crypt_and_tag.
  function Verdict(ivLen: nat, addLen: nat, length: nat, inp: nat, outp: nat, tagLen: nat): int
  {
    if StreamVerdict(ivLen, addLen, length, inp, outp) != 0 then ERR_BAD_INPUT
    else if tagLen > 16 || tagLen < 4 then ERR_BAD_INPUT
    else 0
  }

  // The tag over the associated data a and the ciphertext c.
  function CodeTag(E: Block -> Block, iv: seq<bv8>, a: seq<bv8>, c: seq<bv8>, t: nat): (r: seq<bv8>)
    requires t <= 16 && |a| < MAX_ADD && |c| < MAX_ADD
    ensures |r| == t
  {
    FinishTag(E, E(CodeJ0(E, iv)), Absorb(Subkey(E), Absorb(Subkey(E), ZeroBlock, a), c), |a|, |c|, t)
  }

  // ----- the code against the standard -----

  // The four words of the length block.
  lemma WorkBuf(a: nat, c: nat, w: seq<bv8>)
    requires 8 * a < TWO64 && 8 * c < TWO64
    requires w == U32BE(8 * a / 0x1_0000_0000) + U32BE(8 * a % 0x1_0000_0000)
                  + U32BE(8 * c / 0x1_0000_0000) + U32BE(8 * c % 0x1_0000_0000)
    ensures w == Lengths(a, c)
  {
    hide U32BE;
    Associative(U32BE(8 * a / 0x1_0000_0000) + U32BE(8 * a % 0x1_0000_0000),
                U32BE(8 * c / 0x1_0000_0000), U32BE(8 * c % 0x1_0000_0000));
  }

  // The length block of an initialisation vector holds the number of its bits modulo 2^32.
  lemma CodeIvLengthReads(n: nat)
    ensures BigEndian(CodeIvLength(n)) == 8 * n % 0x1_0000_0000
  {
    hide BigEndian, U32BE, Power256;
    U32Reads(8 * n % 0x1_0000_0000);
    ZerosRead(12);
    BigEndianAppend(Zeros(12), U32BE(8 * n % 0x1_0000_0000));
  }

  // The stored length block of an initialisation vector is the standard's exactly when its
  // bit count fits 32 bits.
  lemma IvLengthExact(n: nat)
    requires 8 * n < TWO64
    ensures CodeIvLength(n) == IvLength(n) <==> n < 0x2000_0000
  {
    hide BigEndian, CodeIvLength, IvLength;
    CodeIvLengthReads(n);
    IvLengthReads(n);
    if n < 0x2000_0000 {
      BigEndianInjective(CodeIvLength(n), IvLength(n));
    }
  }

  // Main result: from 2^29 bytes on the code derives another pre-counter block than the
  // standard, whenever the hash subkey is not zero.
  lemma CounterBlockExact(E: Block -> Block, iv: seq<bv8>)
    requires 8 * |iv| < TWO64
    ensures CodeJ0(E, iv) == J0(E, iv) <==> |iv| < 0x2000_0000 || BlockElem(Subkey(E)) == Zero
  {
    hide Ghash, BlockElem, CodeIvLength, IvLength, Pad16, Subkey;
    var l, m := CodeIvLength(|iv|), IvLength(|iv|);
    IvLengthExact(|iv|);
    if |iv| != 12 {
      assert Pad16(iv) + l == Pad16(iv) + l + [] && Pad16(iv) + m == Pad16(iv) + m + [];
      GcmDetect.GhashBlock(Subkey(E), ZeroBlock, Pad16(iv), l, m, []);
    }
  }

  // Then the tags differ as soon as the cipher takes the two blocks to different ones.
  lemma TagExact(E: Block -> Block, iv: seq<bv8>, a: seq<bv8>, c: seq<bv8>)
    requires 8 * |iv| < TWO64 && |a| < MAX_ADD && |c| < MAX_ADD
    ensures CodeTag(E, iv, a, c, 16) == Tag(E, iv, a, c, 16) <==> E(CodeJ0(E, iv)) == E(J0(E, iv))
  {
    hide J0, CodeJ0, Absorb, Tag, GMul, Subkey, Lengths, Xor;
    FinishIsTag(E, iv, a, c, 16);
    var acc := Absorb(Subkey(E), Absorb(Subkey(E), ZeroBlock, a), c);
    MaskMatters(E, E(CodeJ0(E, iv)), E(J0(E, iv)), acc, |a|, |c|);
  }

  lemma MaskMatters(E: Block -> Block, u: Block, v: Block, acc: Block, m: nat, n: nat)
    requires 8 * m < TWO64 && 8 * n < TWO64
    ensures FinishTag(E, u, acc, m, n, 16) == FinishTag(E, v, acc, m, n, 16) <==> u == v
  {
    hide Xor, GMul, Lengths;
    var s := GMul(Xor(acc, Lengths(m, n)), Subkey(E));
    assert u[..16] == u && v[..16] == v && s[..16] == s;
    GcmDetect.XorInjective(s, u, v);
  }

  // An initialisation vector for which they differ.
  lemma LongIvDiffers()
    ensures var E: Block -> Block := _ => ElemBlock(GcmRing.One);
            CodeJ0(E, Zeros(0x2000_0000)) != J0(E, Zeros(0x2000_0000))
  {
    hide ElemBlock, BlockElem;
    var E: Block -> Block := _ => ElemBlock(GcmRing.One);
    GcmRing.ElemRoundTrip(GcmRing.One);
    CounterBlockExact(E, Zeros(0x2000_0000));
  }

  lemma CodeIsStandard(E: Block -> Block, iv: seq<bv8>, a: seq<bv8>, c: seq<bv8>, t: nat)
    requires t <= 16 && |iv| < 0x2000_0000 && |a| < MAX_ADD && |c| < MAX_ADD
    ensures CodeJ0(E, iv) == J0(E, iv)
    ensures CodeTag(E, iv, a, c, t) == Tag(E, iv, a, c, t)
  {
    hide Tag, FinishTag, Absorb;
    IvLengthExact(|iv|);
    FinishIsTag(E, iv, a, c, t);
  }

  function HashedByte(mode: int, acc: bv8, p: bv8, c: bv8): bv8
  {
    if mode == MODE_ENCRYPT then XorByte(acc, c) else if mode == MODE_DECRYPT then XorByte(acc, p) else acc
  }

  lemma HashedBytes(mode: int, acc: Block, p: seq<bv8>, c: seq<bv8>, r: Block)
    requires 0 < |p| == |c| <= 16
    requires forall k :: 0 <= k < |p| ==> r[k] == HashedByte(mode, acc[k], p[k], c[k])
    requires forall k :: |p| <= k < 16 ==> r[k] == acc[k]
    ensures r == XorPrefix(acc, Hashed(mode, p, c))
  {
    hide XorByte;
    forall k | 0 <= k < |p| ensures r[k] == XorPrefix(acc, Hashed(mode, p, c))[k] {
      ByteXorZero(acc[k]);
    }
    assert r == XorPrefix(acc, Hashed(mode, p, c));
  }

  lemma WholePrefix(y: Block, l: Block)
    ensures XorPrefix(y, l) == Xor(y, l)
  {
    assert y[..16] == y && y[16..] == [];
  }

  lemma UpdateNone(E: Block -> Block, mode: int, st: Stream)
    ensures Output(E, st, []) == [] && Next(E, mode, st, []) == st
  {
    hide Inc32, GMul;
  }

  lemma AbsorbShort(h: Block, y: Block, b: seq<bv8>)
    requires 0 < |b| <= 16
    ensures Absorb(h, y, b) == GMul(XorPrefix(y, b), h)
  {
    hide GMul;
    assert b[..|b|] == b && b[|b|..] == [];
  }

  lemma GctrShort(E: Block -> Block, icb: Block, b: seq<bv8>)
    requires 0 < |b| <= 16
    ensures Gctr(E, icb, b) == Xor(b, E(icb)[..|b|])
  {
    hide Inc32;
    assert b[..|b|] == b && b[|b|..] == [];
    assert Gctr(E, Inc32(icb), []) == [];
  }

  // What one pass of the update loop does is what one call on that block does.
  lemma OneBlock(E: Block -> Block, mode: int, st: Stream, b: seq<bv8>)
    requires 0 < |b| <= 16
    ensures Output(E, st, b) == Xor(b, E(Inc32(st.ctr))[..|b|])
    ensures Next(E, mode, st, b).ctr == Inc32(st.ctr)
    ensures Next(E, mode, st, b).acc
            == GMul(XorPrefix(st.acc, Hashed(mode, b, Output(E, st, b))), Subkey(E))
  {
    hide Inc32, GMul, Gctr, Absorb, Hashed, XorPrefix, Xor;
    GctrShort(E, Inc32(st.ctr), b);
    AbsorbShort(Subkey(E), st.acc, Hashed(mode, b, Output(E, st, b)));
    assert Blocks(|b|) == 1;
    assert IncN(st.ctr, 1) == IncN(Inc32(st.ctr), 0) == Inc32(st.ctr);
  }

  // Writing forward at or below the read position, or past the input, leaves the rest to be read.
  lemma Unread(m: seq<bv8>, inp: nat, outp: nat, length: nat, a: seq<bv8>, n: nat)
    requires inp + length <= |m| && outp + length <= |m| && |a| + n <= length
    requires outp <= inp || inp + length <= outp
    ensures Stored(m, outp, a)[inp + |a|..inp + |a| + n] == m[inp..inp + length][|a|..|a| + n]
  {
    StoredKeeps(m, outp, a, inp + |a|, inp + |a| + n);
    Sliced(m, inp, inp + length, |a|, |a| + n);
  }

  // One more pass over the update loop's invariant.
  lemma Advance(E: Block -> Block, mode: int, st: Stream, m: seq<bv8>, inp: nat, outp: nat, length: nat, pos: nat,
                n: nat)
    requires inp + length <= |m| && outp + length <= |m|
    requires outp <= inp || inp + length <= outp
    requires pos % 16 == 0 && 0 < n <= 16 && pos + n <= length
    requires n == 16 || pos + n == length
    ensures (pos + n) % 16 == 0 || pos + n == length
    ensures var p := m[inp..inp + length];
            var w := Stored(m, outp, Output(E, st, p[..pos]));
            var mid := Next(E, mode, st, p[..pos]);
            && w[inp + pos..inp + pos + n] == p[pos..pos + n]
            && Stored(w, outp + pos, Output(E, mid, p[pos..pos + n])) == Stored(m, outp, Output(E, st, p[..pos + n]))
            && Next(E, mode, mid, p[pos..pos + n]) == Next(E, mode, st, p[..pos + n])
  {
    hide Output, Next, Stored;
    var p := m[inp..inp + length];
    var a, b := p[..pos], p[pos..pos + n];
    Unread(m, inp, outp, length, Output(E, st, a), n);
    UpdateAppend(E, mode, st, a, b);
    StoredTwice(m, outp, Output(E, st, a), Output(E, Next(E, mode, st, a), b));
    assert a + b == p[..pos + n];
  }

  lemma IsWritten(m: seq<bv8>, m': seq<bv8>, at: nat, n: nat)
    requires at + n <= |m| == |m'|
    requires forall k :: 0 <= k < |m| && !(at <= k < at + n) ==> m'[k] == m[k]
    ensures m' == Stored(m, at, m'[at..at + n])
  {}

  // Exclusive or of a short string into the front of a block, the byte loops of gcm.c.
  method XorInto(acc: array<bv8>, p: seq<bv8>)
    requires |p| <= 16 == acc.Length
    modifies acc
    ensures acc[..] == XorPrefix(old(acc[..]), p)
  {
    var i := 0;
    while i < |p|
      invariant 0 <= i <= |p|
      invariant forall k :: 0 <= k < i ==> acc[k] == old(acc[k]) ^ p[k]
      invariant forall k :: i <= k < 16 ==> acc[k] == old(acc[k])
    {
      acc[i] := acc[i] ^ p[i];
      i := i + 1;
    }
  }

  method Fill(a: array<bv8>)
    modifies a
    ensures a[..] == Zeros(a.Length)
  {
    forall i | 0 <= i < a.Length { a[i] := 0; }
  }

  method Copy(b: seq<bv8>, a: array<bv8>)
    requires |b| <= a.Length
    modifies a
    ensures a[..|b|] == b && a[|b|..] == old(a[|b|..])
  {
    forall i | 0 <= i < |b| { a[i] := b[i]; }
  }

  const MAX_ADD: nat := 0x2000_0000_0000_0000
  const MAX_LEN: nat := 0xFFFFFFFE0

  // The limits of section 5.2.1.1 of SP 800-38D: 2^39 - 256 bits of plaintext, and fewer than
  // 2^64 bits of anything else.
  lemma Limits()
    ensures 8 * MAX_LEN == 0x80_0000_0000 - 256 && 8 * MAX_ADD == TWO64
  {}

  // The length block of mbedtls_gcm_starts: only the low 32 bits of the bit count are stored.
  function CodeIvLength(n: nat): Block
  {
    Zeros(12) + U32BE(8 * n % 0x1_0000_0000)
  }

  function CodeJ0(E: Block -> Block, iv: seq<bv8>): Block
  {
    if |iv| == 12 then iv + [0, 0, 0, 1]
    else Ghash(Subkey(E), ZeroBlock, PadThen(iv, CodeIvLength(|iv|)))
  }

  lemma IvHash(h: Block, iv: seq<bv8>, l: Block)
    ensures GMul(XorPrefix(Absorb(h, ZeroBlock, iv), l), h) == Ghash(h, ZeroBlock, PadThen(iv, l))
  {
    hide GMul;
    AbsorbIsGhash(h, ZeroBlock, iv);
    GhashAppend(h, ZeroBlock, Pad16(iv), l);
    GhashOne(h, Absorb(h, ZeroBlock, iv), l);
    var y := Absorb(h, ZeroBlock, iv);
    assert XorPrefix(y, l) == Xor(y, l) by {
      assert y[..16] == y && y[16..] == [];
    }
    assert PadThen(iv, l) == Pad16(iv) + l;
  }

  lemma AbsorbNone(h: Block, y: Block)
    ensures Absorb(h, y, []) == y
  {}

  lemma AbsorbLast(h: Block, y: Block, a: seq<bv8>, b: seq<bv8>)
    requires |a| % 16 == 0 && 0 < |b| <= 16
    ensures Absorb(h, y, a + b) == GMul(XorPrefix(Absorb(h, y, a), b), h)
  {
    hide GMul;
    AbsorbAppend(h, y, a, b);
    assert b[..|b|] == b && b[|b|..] == [];
  }

  method Store(z: Elem, output: array<bv8>)
    requires output.Length == 16
    modifies output
    ensures output[..] == ElemBlock(z)
  {
    hide WordBytes;
    PutUint32BE(z.hi >> 32, output, 0);
    PutUint32BE(z.hi, output, 4);
    PutUint32BE(z.lo >> 32, output, 8);
    PutUint32BE(z.lo, output, 12);
    assert Split(z.hi) == output[..8];
    assert Split(z.lo) == output[8..];
  }

  method PutUint32BE(n: bv64, b: array<bv8>, i: nat)
    requires i + 4 <= b.Length
    modifies b
    ensures forall k :: 0 <= k < 4 ==> b[i + k] == WordBytes(n)[k]
    ensures forall k :: 0 <= k < b.Length && !(i <= k < i + 4) ==> b[k] == old(b[k])
  {
    b[i] := ((n >> 24) & 0xff) as bv8;
    b[i + 1] := ((n >> 16) & 0xff) as bv8;
    b[i + 2] := ((n >> 8) & 0xff) as bv8;
    b[i + 3] := (n & 0xff) as bv8;
  }

  lemma NibblesOf(x: Block, i: nat)
    requires i < 16
    ensures Nibble(x, 2 * i + 1) == x[i] & 0xf
    ensures Nibble(x, 2 * i) == x[i] >> 4
  {}

  lemma NibbleBound(x: Block, k: nat)
    requires k < 32
    ensures Nibble(x, k) < 16
  {}

  lemma EntryOf(n: bv8, h: Elem)
    requires n < 16
    ensures 0 <= n as int < 16 && Entry(n as int, h) == Small(n, h)
  {
    NibbleIndex(n);
  }

  lemma LastNibble(x: Block, h: Elem)
    ensures Tail(x, 124, h) == Small(Nibble(x, 31), h)
  {
    hide Add, MulP, Small, Nibble;
    Horner(x, 31, h);
    MulPZero();
    AddLaws(Small(Nibble(x, 31), h), Zero, Zero);
    assert Tail(x, 128, h) == Zero;
  }

  // The reduction of gcm_gen_table, which builds the constant in a 32-bit product.
  function GenHigh(vh: bv64, vl: bv64): bv64
  {
    (vh >> 1) ^ ((((vl & 1) * 0xe1000000) & 0xffffffff) << 32)
  }

  lemma ShiftIsMulP(vh: bv64, vl: bv64)
    ensures Elem(GenHigh(vh, vl), Low(vh, vl)) == MulP(Elem(vh, vl))
  {
    hide Low;
    GenHighIsHigh(vh, vl);
  }

  lemma GenHighIsHigh(vh: bv64, vl: bv64)
    ensures GenHigh(vh, vl) == High(vh, vl)
  {
    assert vl & 1 == 0 || vl & 1 == 1;
  }
}
