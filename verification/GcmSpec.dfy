// Galois/Counter Mode as NIST SP 800-38D specifies it: GHASH, GCTR and authenticated
// encryption over an arbitrary block cipher.
module GcmSpec {
  import opened Bytes
  import opened Memory
  import opened Gf128
  import opened Numbers

  // ----- blocks and field elements -----

  function WordBytes(n: bv64): (r: seq<bv8>)
    ensures |r| == 4
  {
    [((n >> 24) & 0xff) as bv8, ((n >> 16) & 0xff) as bv8, ((n >> 8) & 0xff) as bv8, (n & 0xff) as bv8]
  }

  function BytesWord(b: seq<bv8>): bv64
    requires |b| == 4
  {
    (b[0] as bv64 << 24) | (b[1] as bv64 << 16) | (b[2] as bv64 << 8) | b[3] as bv64
  }

  function Join(a: seq<bv8>, b: seq<bv8>): bv64
    requires |a| == |b| == 4
  {
    (BytesWord(a) << 32) | BytesWord(b)
  }

  function Split(n: bv64): (r: seq<bv8>)
    ensures |r| == 8
  {
    WordBytes(n >> 32) + WordBytes(n)
  }

  function BlockElem(b: Block): Elem
  {
    Elem(Join(b[0..4], b[4..8]), Join(b[8..12], b[12..16]))
  }

  function ElemBlock(e: Elem): Block
  {
    Split(e.hi) + Split(e.lo)
  }

  function GMul(x: Block, h: Block): Block
  {
    ElemBlock(Product(x, BlockElem(h)))
  }

  const ZeroBlock: Block := Zeros(16)

  lemma {:induction false} ZeroTimes(h: Elem, i: nat)
    requires i <= 128
    ensures ZV(ZeroBlock, h, i).0 == Zero
  {
    hide MulP, Add;
    if i > 0 {
      ZeroTimes(h, i - 1);
      ZeroBit(i - 1);
    }
  }

  lemma ZeroBit(i: nat)
    requires i < 128
    ensures !Bit(ZeroBlock, i)
  {}

  lemma ZeroMul(h: Block)
    ensures GMul(ZeroBlock, h) == ZeroBlock
  {
    ZeroTimes(BlockElem(h), 128);
    assert WordBytes(0) == [0, 0, 0, 0];
  }

  // ----- GHASH (section 6.4) -----

  function Pad16(s: seq<bv8>): (r: seq<bv8>)
    ensures |r| % 16 == 0 && s <= r
  {
    s + Zeros((16 - |s| % 16) % 16)
  }

  function Ghash(h: Block, y: Block, s: seq<bv8>): Block
    requires |s| % 16 == 0
    decreases |s|
  {
    if s == [] then y else Ghash(h, GMul(Xor(y, s[..16]), h), s[16..])
  }

  lemma {:induction false} GhashAppend(h: Block, y: Block, a: seq<bv8>, b: seq<bv8>)
    requires |a| % 16 == 0 && |b| % 16 == 0
    ensures Ghash(h, y, a + b) == Ghash(h, Ghash(h, y, a), b)
    decreases |a|
  {
    hide GMul;
    if a == [] {
      assert a + b == b;
    } else {
      assert (a + b)[..16] == a[..16];
      assert (a + b)[16..] == a[16..] + b;
      GhashAppend(h, GMul(Xor(y, a[..16]), h), a[16..], b);
    }
  }

  lemma GhashOne(h: Block, y: Block, b: Block)
    ensures Ghash(h, y, b) == GMul(Xor(y, b), h)
  {
    hide GMul;
    assert b[..16] == b && b[16..] == [];
  }

  // ----- GCTR (section 6.5) -----

  function Counter(y: Block): bv32
  {
    (y[12] as bv32 << 24) | (y[13] as bv32 << 16) | (y[14] as bv32 << 8) | y[15] as bv32
  }

  function CounterBytes(n: bv32): (r: seq<bv8>)
    ensures |r| == 4
  {
    [((n >> 24) & 0xff) as bv8, ((n >> 16) & 0xff) as bv8, ((n >> 8) & 0xff) as bv8, (n & 0xff) as bv8]
  }

  // The last 32 bits are incremented modulo 2^32, the first 96 are kept.
  function Inc32(y: Block): Block
  {
    y[..12] + CounterBytes(Counter(y) + 1)
  }

  // The carries of the counter, byte by byte.
  function Carried(a: bv8, b: bv8, c: bv8, d: bv8): seq<bv8>
  {
    if d != 0xff then [a, b, c, d + 1]
    else if c != 0xff then [a, b, c + 1, 0]
    else if b != 0xff then [a, b + 1, 0, 0]
    else [a + 1, 0, 0, 0]
  }

  lemma CounterSteps(a: bv8, b: bv8, c: bv8, d: bv8)
    ensures CounterBytes(((a as bv32 << 24) | (b as bv32 << 16) | (c as bv32 << 8) | d as bv32) + 1)
            == Carried(a, b, c, d)
  {}

  lemma IncCarries(y: Block)
    ensures Inc32(y) == y[..12] + Carried(y[12], y[13], y[14], y[15])
  {
    hide CounterBytes, Carried;
    CounterSteps(y[12], y[13], y[14], y[15]);
  }

  lemma NextDigit(b: bv8)
    ensures if b == 0xff then Digit(b) == 0xff else Digit(b + 1) == Digit(b) + 1
  {}

  lemma CarriedReads(a: bv8, b: bv8, c: bv8, d: bv8)
    ensures BigEndian(Carried(a, b, c, d)) == (BigEndian([a, b, c, d]) + 1) % 0x1_0000_0000
  {
    hide BigEndian, Digit, Carried;
    CarryCases(a, b, c, d);
    NextDigit(a);
    NextDigit(b);
    NextDigit(c);
    NextDigit(d);
    BigEndian4(a, b, c, d);
    DigitOf(0);
    BigEndian4(a, b, c, d + 1);
    BigEndian4(a, b, c + 1, 0);
    BigEndian4(a, b + 1, 0, 0);
    BigEndian4(a + 1, 0, 0, 0);
    BigEndian4(0, 0, 0, 0);
  }

  lemma CarryCases(a: bv8, b: bv8, c: bv8, d: bv8)
    ensures d != 0xff ==> Carried(a, b, c, d) == [a, b, c, d + 1]
    ensures d == 0xff && c != 0xff ==> Carried(a, b, c, d) == [a, b, c + 1, 0]
    ensures d == 0xff && c == 0xff && b != 0xff ==> Carried(a, b, c, d) == [a, b + 1, 0, 0]
    ensures d == 0xff && c == 0xff && b == 0xff && a != 0xff ==> Carried(a, b, c, d) == [a + 1, 0, 0, 0]
    ensures d == 0xff && c == 0xff && b == 0xff && a == 0xff ==> Carried(a, b, c, d) == [0, 0, 0, 0]
  {}

  // The last four bytes count modulo 2^32, the others stay.
  lemma Inc32Reads(y: Block)
    ensures Inc32(y)[..12] == y[..12]
    ensures BigEndian(Inc32(y)[12..]) == (BigEndian(y[12..]) + 1) % 0x1_0000_0000
  {
    hide BigEndian, Carried, Inc32;
    IncCarries(y);
    CarriedReads(y[12], y[13], y[14], y[15]);
    assert y[12..] == [y[12], y[13], y[14], y[15]];
    assert Inc32(y)[12..] == Carried(y[12], y[13], y[14], y[15]);
  }

  lemma {:induction false} IncNReads(y: Block, n: nat)
    ensures IncN(y, n)[..12] == y[..12]
    ensures BigEndian(IncN(y, n)[12..]) == (BigEndian(y[12..]) + n) % 0x1_0000_0000
    decreases n
  {
    hide Inc32, BigEndian;
    if n > 0 {
      Inc32Reads(y);
      IncNReads(Inc32(y), n - 1);
    } else {
      CounterBound(y);
    }
  }

  lemma CounterBound(y: Block)
    ensures BigEndian(y[12..]) < 0x1_0000_0000
  {
    hide BigEndian, Digit;
    assert y[12..] == [y[12], y[13], y[14], y[15]];
    BigEndian4(y[12], y[13], y[14], y[15]);
  }

  function IncN(y: Block, n: nat): Block
    decreases n
  {
    if n == 0 then y else IncN(Inc32(y), n - 1)
  }

  lemma {:induction false} IncNAdd(y: Block, m: nat, n: nat)
    ensures IncN(IncN(y, m), n) == IncN(y, m + n)
    decreases m
  {
    hide Inc32;
    if m > 0 {
      IncNAdd(Inc32(y), m - 1, n);
    }
  }

  function Gctr(E: Block -> Block, icb: Block, s: seq<bv8>): (r: seq<bv8>)
    ensures |r| == |s|
    decreases |s|
  {
    if s == [] then []
    else
      var n := Min(16, |s|);
      Xor(s[..n], E(icb)[..n]) + Gctr(E, Inc32(icb), s[n..])
  }

  lemma {:induction false} GctrAppend(E: Block -> Block, icb: Block, a: seq<bv8>, b: seq<bv8>)
    requires |a| % 16 == 0
    ensures Gctr(E, icb, a + b) == Gctr(E, icb, a) + Gctr(E, IncN(icb, |a| / 16), b)
    decreases |a|
  {
    hide Inc32, Xor;
    if a == [] {
      assert a + b == b;
    } else {
      assert (a + b)[..16] == a[..16];
      assert (a + b)[16..] == a[16..] + b;
      GctrAppend(E, Inc32(icb), a[16..], b);
      assert |a[16..]| / 16 == |a| / 16 - 1;
    }
  }

  lemma GctrOneBlock(E: Block -> Block, icb: Block, s: Block)
    ensures Gctr(E, icb, s) == Xor(s, E(icb))
  {
    assert s[..16] == s && s[16..] == [] && E(icb)[..16] == E(icb);
  }

  // The key stream cancels.
  lemma {:induction false} GctrInvolution(E: Block -> Block, icb: Block, s: seq<bv8>)
    ensures Gctr(E, icb, Gctr(E, icb, s)) == s
    decreases |s|
  {
    hide Inc32;
    if s != [] {
      var n := Min(16, |s|);
      var c := Xor(s[..n], E(icb)[..n]);
      var rest := Gctr(E, Inc32(icb), s[n..]);
      assert (c + rest)[..n] == c && (c + rest)[n..] == rest;
      GctrInvolution(E, Inc32(icb), s[n..]);
      XorTwice(s[..n], E(icb)[..n]);
    }
  }

  // ----- authenticated encryption (section 7) -----

  const TWO64: nat := 0x1_0000_0000_0000_0000

  // A 64-bit big-endian integer.
  function U64BE(n: nat): (r: seq<bv8>)
    requires n < TWO64
    ensures |r| == 8
  {
    U32BE(n / 0x1_0000_0000) + U32BE(n % 0x1_0000_0000)
  }

  function U32BE(n: nat): (r: seq<bv8>)
    requires n < 0x1_0000_0000
    ensures |r| == 4
  {
    [(n / 0x1000000) as bv8, (n / 0x10000 % 0x100) as bv8, (n / 0x100 % 0x100) as bv8, (n % 0x100) as bv8]
  }

  lemma U32Reads(n: nat)
    requires n < 0x1_0000_0000
    ensures BigEndian(U32BE(n)) == n
  {
    hide BigEndian, Digit;
    var b := U32BE(n);
    Digits(n);
    DigitOf(n / 0x1000000);
    DigitOf(n / 0x10000 % 0x100);
    DigitOf(n / 0x100 % 0x100);
    DigitOf(n % 0x100);
    BigEndian4(b[0], b[1], b[2], b[3]);
    assert b == [b[0], b[1], b[2], b[3]];
  }

  lemma U64Reads(n: nat)
    requires n < TWO64
    ensures BigEndian(U64BE(n)) == n
  {
    hide BigEndian, U32BE, Power256;
    U32Reads(n / 0x1_0000_0000);
    U32Reads(n % 0x1_0000_0000);
    Powers();
    BigEndianAppend(U32BE(n / 0x1_0000_0000), U32BE(n % 0x1_0000_0000));
  }

  // The hash subkey.
  function Subkey(E: Block -> Block): Block
  {
    E(ZeroBlock)
  }

  // The last block hashed for an initialisation vector of n bytes.
  function IvLength(n: nat): Block
    requires 8 * n < TWO64
  {
    Zeros(8) + U64BE(8 * n)
  }

  function J0(E: Block -> Block, iv: seq<bv8>): Block
    requires 8 * |iv| < TWO64
  {
    if |iv| == 12 then iv + [0, 0, 0, 1]
    else Ghash(Subkey(E), ZeroBlock, PadThen(iv, IvLength(|iv|)))
  }

  function PadThen(s: seq<bv8>, last: Block): (r: seq<bv8>)
    ensures |r| % 16 == 0
  {
    Pad16(s) + last
  }

  function Ciphertext(E: Block -> Block, iv: seq<bv8>, p: seq<bv8>): (c: seq<bv8>)
    requires 8 * |iv| < TWO64
    ensures |c| == |p|
  {
    Gctr(E, Inc32(J0(E, iv)), p)
  }

  // The last block hashed for a bytes of associated data and c bytes of ciphertext.
  function Lengths(a: nat, c: nat): (r: Block)
    requires 8 * a < TWO64 && 8 * c < TWO64
  {
    U64BE(8 * a) + U64BE(8 * c)
  }

  // Main result: the first eight bytes are the number of bits of the associated data, the other
  // eight that of the ciphertext; and no other block reads so.
  lemma LengthsRead(a: nat, c: nat, l: Block)
    requires 8 * a < TWO64 && 8 * c < TWO64
    ensures BigEndian(l[..8]) == 8 * a && BigEndian(l[8..]) == 8 * c <==> l == Lengths(a, c)
  {
    hide BigEndian, U64BE;
    var m := Lengths(a, c);
    U64Reads(8 * a);
    U64Reads(8 * c);
    assert m[..8] == U64BE(8 * a) && m[8..] == U64BE(8 * c);
    if BigEndian(l[..8]) == 8 * a && BigEndian(l[8..]) == 8 * c {
      BigEndianInjective(l[..8], m[..8]);
      BigEndianInjective(l[8..], m[8..]);
      assert l == l[..8] + l[8..];
    }
  }

  lemma IvLengthReads(n: nat)
    requires 8 * n < TWO64
    ensures BigEndian(IvLength(n)) == 8 * n
  {
    hide BigEndian, U64BE;
    U64Reads(8 * n);
    ZerosRead(8);
    BigEndianAppend(Zeros(8), U64BE(8 * n));
  }

  // The string whose hash is masked to give the tag.
  function TagInput(a: seq<bv8>, c: seq<bv8>): (r: seq<bv8>)
    requires 8 * |a| < TWO64 && 8 * |c| < TWO64
    ensures |r| % 16 == 0
  {
    hide Lengths, PadThen, Pad16;
    Joined(Pad16(a), PadThen(c, Lengths(|a|, |c|)))
  }

  function Joined(p: seq<bv8>, q: seq<bv8>): (r: seq<bv8>)
    requires |p| % 16 == 0 && |q| % 16 == 0
    ensures |r| % 16 == 0
  {
    MultiplesAdd(|p|, |q|);
    p + q
  }

  lemma MultiplesAdd(m: nat, n: nat)
    requires m % 16 == 0 && n % 16 == 0
    ensures (m + n) % 16 == 0
  {}

  function Tag(E: Block -> Block, iv: seq<bv8>, a: seq<bv8>, c: seq<bv8>, t: nat): (r: seq<bv8>)
    requires t <= 16
    requires 8 * |iv| < TWO64 && 8 * |a| < TWO64 && 8 * |c| < TWO64
    ensures |r| == t
  {
    Gctr(E, J0(E, iv), Ghash(Subkey(E), ZeroBlock, TagInput(a, c)))[..t]
  }
}
