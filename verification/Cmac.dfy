// share/crypto/cmac.c: the CMAC of section 6.2 of NIST SP 800-38B and section 2.4 of RFC 4493,
// over any cipher with blocks of 8 or 16 bytes, and its streaming form.
module Cmac {
  import opened Bytes
  import opened Memory
  import opened Gf128

  // ----- multiplication by u -----

  // Bit j of a byte, the most significant first.
  predicate Set(b: bv8, j: nat)
    requires j < 8
  {
    b & BitMask(j) != 0
  }

  // Bit i of a string, the most significant bit of byte 0 first.
  predicate BitAt(b: seq<bv8>, i: nat)
    requires i < 8 * |b|
  {
    Set(b[i / 8], i % 8)
  }

  // R_64 and R_128.
  function Reduction(n: nat): bv8
  {
    if n == 16 then 0x87 else 0x1b
  }

  function ReductionBlock(n: nat): (r: seq<bv8>)
    requires n > 0
    ensures |r| == n
  {
    Zeros(n - 1) + [Reduction(n)]
  }

  // u^128 is u^7 + u^2 + u + 1, and u^64 is u^4 + u^3 + u + 1.
  lemma ReductionBits(n: nat, i: nat)
    requires (n == 8 || n == 16) && i < 8 * n
    ensures BitAt(ReductionBlock(n), i)
            <==> if n == 16 then i == 120 || i == 125 || i == 126 || i == 127
                 else i == 59 || i == 60 || i == 62 || i == 63
  {
    var last := Reduction(n);
    assert i / 8 < n - 1 ==> ReductionBlock(n)[i / 8] == 0;
    assert i / 8 == n - 1 ==> ReductionBlock(n)[i / 8] == last && i == 8 * (n - 1) + i % 8;
    LastBits(i % 8);
  }

  lemma LastBits(j: nat)
    requires j < 8
    ensures !Set(0, j)
    ensures Set(0x87, j) <==> j == 0 || j == 5 || j == 6 || j == 7
    ensures Set(0x1b, j) <==> j == 3 || j == 4 || j == 6 || j == 7
  {}

  // A byte shifted left with the top bit of the next one.
  function ShiftIn(b: bv8, next: bv8): bv8
  {
    (b << 1) | (next >> 7)
  }

  function Next(b: seq<bv8>, i: nat): bv8
    requires i < |b|
  {
    if i + 1 < |b| then b[i + 1] else 0
  }

  function Shifted(b: seq<bv8>): (r: seq<bv8>)
    ensures |r| == |b|
    ensures forall i :: 0 <= i < |b| ==> r[i] == ShiftIn(b[i], Next(b, i))
  {
    seq(|b|, i requires 0 <= i < |b| => ShiftIn(b[i], Next(b, i)))
  }

  function Mask(b: bv8): bv8
  {
    0 - (b >> 7)
  }

  // The last byte, with R added when the top bit of the block is set.
  function Reduced(x: bv8, r: bv8, top: bv8): bv8
  {
    XorByte(x, r & Mask(top))
  }

  function MulU(b: seq<bv8>): (r: seq<bv8>)
    requires |b| > 0
    ensures |r| == |b|
  {
    var last := |b| - 1;
    Shifted(b)[last := Reduced(Shifted(b)[last], Reduction(|b|), b[0])]
  }

  lemma ShiftInBit(b: bv8, next: bv8, j: nat)
    requires j < 8
    ensures Set(ShiftIn(b, next), j) == if j < 7 then Set(b, j + 1) else Set(next, 0)
  {}

  lemma MaskedBit(x: bv8, r: bv8, top: bv8, j: nat)
    requires j < 8
    ensures Set(Reduced(x, r, top), j) == (Set(x, j) != (Set(top, 0) && Set(r, j)))
  {
    hide Set, XorByte, Mask;
    MaskIs(r, top);
    XorBit(x, r & Mask(top), j);
    NoBits(j);
  }

  lemma MaskIs(r: bv8, top: bv8)
    ensures r & Mask(top) == if Set(top, 0) then r else 0
  {}

  lemma XorBit(x: bv8, y: bv8, j: nat)
    requires j < 8
    ensures Set(XorByte(x, y), j) == (Set(x, j) != Set(y, j))
  {}

  // Bit i of the product is bit i + 1 of the factor, plus bit i of R when the top bit falls out.
  lemma MulUBits(b: seq<bv8>, i: nat)
    requires |b| == 8 || |b| == 16
    requires i < 8 * |b|
    ensures BitAt(MulU(b), i)
            == ((i + 1 < 8 * |b| && BitAt(b, i + 1)) != (BitAt(b, 0) && BitAt(ReductionBlock(|b|), i)))
  {
    hide ShiftIn, Set, Reduced, Reduction;
    var k, j := i / 8, i % 8;
    ShiftInBit(b[k], Next(b, k), j);
    NoBits(j);
    if k == |b| - 1 {
      MaskedBit(Shifted(b)[k], Reduction(|b|), b[0], j);
    }
    if j == 7 {
      assert (i + 1) / 8 == k + 1 && (i + 1) % 8 == 0;
      NoBits(0);
    } else {
      assert (i + 1) / 8 == k && (i + 1) % 8 == j + 1;
    }
  }

  lemma NoBits(j: nat)
    requires j < 8
    ensures !Set(0, j)
  {}

  // The loop from the last byte to the first, then the reduction.
  method MultiplyByU(output: array<bv8>, input: array<bv8>) returns (ok: bool)
    requires output != input && output.Length == input.Length
    modifies output
    ensures ok == (input.Length == 8 || input.Length == 16)
    ensures ok ==> output[..] == MulU(input[..])
    ensures !ok ==> output[..] == old(output[..])
  {
    hide ShiftIn, XorByte, Mask;
    var n := input.Length;
    if n != 16 && n != 8 {
      return false;
    }
    var overflow: bv8 := 0;
    var i := n - 1;
    while i >= 0
      invariant -1 <= i < n
      invariant overflow == if i == n - 1 then 0 else input[i + 1] >> 7
      invariant forall k :: i < k < n ==> output[k] == ShiftIn(input[k], Next(input[..], k))
      invariant input[..] == old(input[..])
    {
      ShiftInOverflow(input[i], Next(input[..], i));
      output[i] := (input[i] << 1) | overflow;
      overflow := input[i] >> 7;
      i := i - 1;
    }
    assert output[..] == Shifted(input[..]);
    var mask := Mask(input[0]);
    output[n - 1] := XorByte(output[n - 1], Reduction(n) & mask);
    ok := true;
  }

  lemma ShiftInOverflow(b: bv8, next: bv8)
    ensures ShiftIn(b, next) == (b << 1) | (next >> 7)
    ensures (0 as bv8) >> 7 == 0
  {}

  // ----- the algorithm of RFC 4493 -----

  function K1(e: BlockCipher, n: nat): (r: seq<bv8>)
    requires Enciphers(e, n)
    ensures |r| == n
  {
    MulU(e(Zeros(n)))
  }

  function K2(e: BlockCipher, n: nat): (r: seq<bv8>)
    requires Enciphers(e, n)
    ensures |r| == n
  {
    MulU(K1(e, n))
  }

  // The number of blocks, one for the empty message.
  function Blocks(n: nat, len: nat): (k: nat)
    requires n > 0
    ensures k >= 1
  {
    if len == 0 then 1 else 1 + (len - 1) / n
  }

  function Step(e: BlockCipher, n: nat, y: seq<bv8>, block: seq<bv8>): (r: seq<bv8>)
    requires Enciphers(e, n) && |y| == |block| == n
    ensures |r| == n
  {
    e(Xor(block, y))
  }

  // X after the first i blocks of m.
  function Chain(e: BlockCipher, n: nat, m: seq<bv8>, i: nat): (r: seq<bv8>)
    requires Enciphers(e, n) && i * n <= |m|
    ensures |r| == n
  {
    if i == 0 then Zeros(n)
    else
      Before(i, n);
      Step(e, n, Chain(e, n, m, i - 1), m[(i - 1) * n..i * n])
  }

  lemma Before(i: nat, n: nat)
    requires i > 0
    ensures (i - 1) * n == i * n - n
  {}

  function PadBlock(n: nat, last: seq<bv8>): (r: seq<bv8>)
    requires |last| < n
    ensures |r| == n
  {
    last + [0x80] + Zeros(n - |last| - 1)
  }

  // After the message one bit 1, and then zeros.
  lemma PadBits(n: nat, last: seq<bv8>, i: nat)
    requires |last| < n && i < 8 * n
    ensures BitAt(PadBlock(n, last), i) <==> if i < 8 * |last| then BitAt(last, i) else i == 8 * |last|
  {
    TopBit(i % 8);
  }

  lemma TopBit(j: nat)
    requires j < 8
    ensures !Set(0, j) && (Set(0x80, j) <==> j == 0)
  {}

  function LastBlock(e: BlockCipher, n: nat, last: seq<bv8>): (r: seq<bv8>)
    requires Enciphers(e, n) && |last| <= n
    ensures |r| == n
  {
    if |last| == n then Xor(last, K1(e, n)) else Xor(PadBlock(n, last), K2(e, n))
  }

  lemma BlocksFit(n: nat, len: nat)
    requires n > 0
    ensures (Blocks(n, len) - 1) * n <= len <= (Blocks(n, len) - 1) * n + n
    ensures len > 0 ==> (Blocks(n, len) - 1) * n < len
  {}

  function Mac(e: BlockCipher, n: nat, m: seq<bv8>): (r: seq<bv8>)
    requires Enciphers(e, n)
    ensures |r| == n
  {
    BlocksFit(n, |m|);
    var k := Blocks(n, |m|) - 1;
    Step(e, n, Chain(e, n, m, k), LastBlock(e, n, m[k * n..]))
  }

  // ----- the buffered form -----

  // The state once every block is absorbed that more data is known to follow, and the bytes
  // kept back: never none of a message that is not empty.
  function Feed(e: BlockCipher, n: nat, y: seq<bv8>, s: seq<bv8>): (r: (seq<bv8>, seq<bv8>))
    requires Enciphers(e, n) && |y| == n
    ensures |r.0| == n && |r.1| <= n
    ensures |s| > 0 ==> |r.1| > 0
    decreases |s|
  {
    if |s| <= n then (y, s) else Feed(e, n, Step(e, n, y, s[..n]), s[n..])
  }

  lemma {:induction false} FeedTwice(e: BlockCipher, n: nat, y: seq<bv8>, a: seq<bv8>, b: seq<bv8>)
    requires Enciphers(e, n) && |y| == n
    ensures Feed(e, n, Feed(e, n, y, a).0, Feed(e, n, y, a).1 + b) == Feed(e, n, y, a + b)
    decreases |a|
  {
    if |a| > n {
      assert (a + b)[..n] == a[..n] && (a + b)[n..] == a[n..] + b;
      FeedTwice(e, n, Step(e, n, y, a[..n]), a[n..], b);
    }
  }

  // From block i on, feeding the rest of m ends at the last block.
  lemma {:induction false} FeedIsChain(e: BlockCipher, n: nat, m: seq<bv8>, i: nat)
    requires Enciphers(e, n) && i <= Blocks(n, |m|) - 1 && i * n <= |m|
    ensures var k := Blocks(n, |m|) - 1;
            && k * n <= |m|
            && Feed(e, n, Chain(e, n, m, i), m[i * n..]) == (Chain(e, n, m, k), m[k * n..])
    decreases Blocks(n, |m|) - i
  {
    hide Blocks, Step;
    assert n > 0;
    BlocksFit(n, |m|);
    var k := Blocks(n, |m|) - 1;
    if i < k {
      MoreBlocks(i, k, n);
      Before(i + 1, n);
      var s := m[i * n..];
      assert s[..n] == m[i * n..(i + 1) * n] && s[n..] == m[(i + 1) * n..];
      FeedIsChain(e, n, m, i + 1);
    }
  }

  lemma MoreBlocks(i: nat, k: nat, n: nat)
    requires i < k
    ensures (i + 1) * n <= k * n
  {}

  lemma FeedIsMac(e: BlockCipher, n: nat, m: seq<bv8>)
    requires Enciphers(e, n)
    ensures var (y, last) := Feed(e, n, Zeros(n), m);
            Step(e, n, y, LastBlock(e, n, last)) == Mac(e, n, m)
  {
    hide Blocks, Step, Feed, LastBlock;
    assert n > 0;
    BlocksFit(n, |m|);
    assert 0 * n == 0;
    FeedIsChain(e, n, m, 0);
    assert m[0..] == m;
  }

  // ----- runs -----

  function RunFeed(e: BlockCipher, n: nat, y: seq<bv8>, pending: seq<bv8>,
                   chunks: seq<seq<bv8>>): (r: (seq<bv8>, seq<bv8>))
    requires Enciphers(e, n) && |y| == n
    ensures |r.0| == n
    decreases |chunks|
  {
    if chunks == [] then (y, pending)
    else
      var (y', pending') := Feed(e, n, y, pending + chunks[0]);
      RunFeed(e, n, y', pending', chunks[1..])
  }

  lemma {:induction false} RunIsOneFeed(e: BlockCipher, n: nat, y: seq<bv8>, s: seq<bv8>, chunks: seq<seq<bv8>>)
    requires Enciphers(e, n) && |y| == n
    ensures RunFeed(e, n, Feed(e, n, y, s).0, Feed(e, n, y, s).1, chunks) == Feed(e, n, y, s + Flatten(chunks))
    decreases |chunks|
  {
    hide Feed;
    if chunks == [] {
      assert s + [] == s;
    } else {
      FeedTwice(e, n, y, s, chunks[0]);
      RunIsOneFeed(e, n, y, s + chunks[0], chunks[1..]);
      assert s + Flatten(chunks) == s + chunks[0] + Flatten(chunks[1..]);
    }
  }

  // What finish computes from the state and the bytes kept back.
  function FinishTag(e: BlockCipher, n: nat, y: seq<bv8>, pending: seq<bv8>): seq<bv8>
    requires Enciphers(e, n) && |y| == n && |pending| <= n
  {
    Step(e, n, y, LastBlock(e, n, pending))
  }

  // Main result: however the message is cut, the updates keep back between 1 and n bytes of a
  // message that is not empty, and finish gives the CMAC of the whole message.
  lemma StreamTag(e: BlockCipher, n: nat, chunks: seq<seq<bv8>>)
    requires Enciphers(e, n)
    ensures var (y, pending) := RunFeed(e, n, Zeros(n), [], chunks);
            && |pending| <= n
            && (|Flatten(chunks)| > 0 ==> |pending| > 0)
            && FinishTag(e, n, y, pending) == Mac(e, n, Flatten(chunks))
  {
    hide LastBlock, Step, Mac;
    RunIsOneFeed(e, n, Zeros(n), [], chunks);
    assert [] + Flatten(chunks) == Flatten(chunks);
    FeedIsMac(e, n, Flatten(chunks));
  }

  // ----- the context -----

  class CmacContext {
    const e: BlockCipher
    const size: nat
    const state: array<bv8>
    const block: array<bv8>
    var len: nat

    ghost predicate Valid()
      reads this
    {
      Enciphers(e, size) && state != block && state.Length == block.Length == size && len <= size
    }

    ghost function Pending(): seq<bv8>
      requires Valid()
      reads this, block
    {
      block[..len]
    }

    constructor Starts(e: BlockCipher, size: nat)
      requires Enciphers(e, size)
      ensures this.e == e && this.size == size && fresh(state) && fresh(block)
      ensures Valid() && state[..] == Zeros(size) && Pending() == []
    {
      this.e, this.size, len := e, size, 0;
      state := new bv8[size](_ => 0);
      block := new bv8[size](_ => 0);
    }

    // cmac_xor_block and the encryption of the state.
    method Absorb(input: seq<bv8>)
      requires Valid() && |input| == size
      modifies state
      ensures state[..] == Step(e, size, old(state[..]), input)
    {
      var i := 0;
      while i < size
        invariant 0 <= i <= size
        invariant forall k :: 0 <= k < i ==> state[k] == XorByte(input[k], old(state[k]))
        invariant forall k :: i <= k < size ==> state[k] == old(state[k])
      {
        state[i] := XorByte(input[i], state[i]);
        i := i + 1;
      }
      assert state[..] == Xor(input, old(state[..]));
      Store(state, e(state[..]));
    }

    method Store(a: array<bv8>, s: seq<bv8>)
      requires a.Length == |s|
      modifies a
      ensures a[..] == s
    {
      forall i | 0 <= i < |s| { a[i] := s[i]; }
    }

    method Update(input: seq<bv8>)
      requires Valid()
      modifies this, state, block
      ensures Valid()
      ensures (state[..], Pending()) == Feed(e, size, old(state[..]), old(Pending()) + input)
    {
      hide Step;
      ghost var y, pending := state[..], Pending();
      var rest := input;
      if len > 0 && |rest| > size - len {
        var fill := size - len;
        StoreAt(block, len, rest[..fill]);
        assert block[..] == (pending + input)[..size];
        assert (pending + input)[size..] == rest[fill..];
        Absorb(block[..]);
        rest := rest[fill..];
        len := 0;
        assert block[..0] + rest == rest;
      }
      ghost var kept := Pending();
      assert Feed(e, size, state[..], kept + rest) == Feed(e, size, y, pending + input);
      assert len == 0 ==> kept + rest == rest;
      rest := Chew(rest);
      assert len == 0 ==> kept + rest == rest;
      if |rest| > 0 {
        StoreAt(block, len, rest);
        len := len + |rest|;
      }
      assert block[..len] == kept + rest;
    }

    // The loop over all blocks but the last, which may be short.
    method Chew(input: seq<bv8>) returns (rest: seq<bv8>)
      requires Valid()
      modifies state
      ensures |rest| <= size
      ensures Feed(e, size, state[..], rest) == Feed(e, size, old(state[..]), input)
      ensures |input| <= size ==> rest == input && state[..] == old(state[..])
    {
      hide Step;
      rest := input;
      var n := (|rest| + size - 1) / size;
      CeilIs(|rest|, size);
      var j := 1;
      while j < n
        invariant 1 <= j
        invariant j <= n || n == 0
        invariant |rest| <= (n - j + 1) * size
        invariant j < n ==> |rest| > (n - j) * size
        invariant Feed(e, size, state[..], rest) == Feed(e, size, old(state[..]), input)
        invariant |input| <= size ==> rest == input && state[..] == old(state[..])
      {
        Fewer(n - j, size);
        Absorb(rest[..size]);
        rest := rest[size..];
        j := j + 1;
      }
    }

    // The subkeys, from the encryption of the zero block.
    method GenerateSubkeys() returns (k1: array<bv8>, k2: array<bv8>)
      requires Valid()
      ensures fresh(k1) && fresh(k2) && k1[..] == K1(e, size) && k2[..] == K2(e, size)
    {
      hide MulU;
      var l := new bv8[size](_ => 0);
      Store(l, e(Zeros(size)));
      k1 := new bv8[size](_ => 0);
      k2 := new bv8[size](_ => 0);
      var ok := MultiplyByU(k1, l);
      ok := MultiplyByU(k2, k1);
    }

    // cmac_pad.
    method Pad(padded: array<bv8>)
      requires Valid() && len < size && padded.Length == size && padded != block
      modifies padded
      ensures padded[..] == PadBlock(size, Pending())
    {
      var j := 0;
      while j < size
        invariant 0 <= j <= size
        invariant forall k :: 0 <= k < j ==> padded[k] == if k < len then block[k] else if k == len then 0x80 else 0
        invariant block[..] == old(block[..])
      {
        if j < len {
          padded[j] := block[j];
        } else if j == len {
          padded[j] := 0x80;
        } else {
          padded[j] := 0;
        }
        j := j + 1;
      }
    }

    // The tag, and a context ready for the next message.
    method Finish() returns (output: seq<bv8>)
      requires Valid()
      modifies this, state, block
      ensures output == FinishTag(e, size, old(state[..]), old(Pending()))
      ensures Valid() && state[..] == Zeros(size) && Pending() == []
    {
      hide Step, K1, K2;
      var k1, k2 := GenerateSubkeys();
      var last := new bv8[size](_ => 0);
      if len < size {
        Pad(last);
        Store(last, Xor(last[..], k2[..]));
      } else {
        assert Pending() == block[..];
        Store(last, Xor(block[..], k1[..]));
      }
      Absorb(last[..]);
      output := state[..];
      len := 0;
      Store(block, Zeros(size));
      Store(state, Zeros(size));
    }
  }

  // One call of everything.
  method Tag(e: BlockCipher, n: nat, input: seq<bv8>) returns (output: seq<bv8>)
    requires Enciphers(e, n)
    ensures output == Mac(e, n, input)
  {
    hide LastBlock, Step, Mac, Feed;
    var ctx := new CmacContext.Starts(e, n);
    ctx.Update(input);
    assert [] + input == input;
    output := ctx.Finish();
    FeedIsMac(e, n, input);
  }

  // AES-CMAC-PRF-128 of RFC 4615: a key of another length is first hashed with the zero key.
  method Prf128(aes: seq<bv8> -> BlockCipher, key: seq<bv8>, input: seq<bv8>) returns (output: seq<bv8>)
    requires forall k :: |k| == 16 ==> Enciphers(aes(k), 16)
    ensures |key| == 16 ==> output == Mac(aes(key), 16, input)
    ensures |key| != 16 ==> output == Mac(aes(Mac(aes(Zeros(16)), 16, key)), 16, input)
  {
    hide Mac;
    var k := key;
    if |key| != 16 {
      k := Tag(aes(Zeros(16)), 16, key);
    }
    output := Tag(aes(k), 16, input);
  }

  lemma CeilIs(len: nat, n: nat)
    requires n > 0
    ensures var k := (len + n - 1) / n;
            len <= k * n && (len > 0 ==> k >= 1 && len > (k - 1) * n)
  {}

  lemma Fewer(k: nat, n: nat)
    requires k >= 1
    ensures (k + 1) * n == k * n + n && k * n == (k - 1) * n + n
    ensures k * n >= n
  {}

  // Main result: a context driven through any cut of the message gives its CMAC.
  method TagInPieces(e: BlockCipher, n: nat, chunks: seq<seq<bv8>>) returns (output: seq<bv8>)
    requires Enciphers(e, n)
    ensures output == Mac(e, n, Flatten(chunks))
  {
    hide LastBlock, Step, Mac, Feed, FinishTag;
    var ctx := new CmacContext.Starts(e, n);
    var rest := chunks;
    while rest != []
      invariant ctx.Valid() && fresh(ctx) && fresh(ctx.state) && fresh(ctx.block) && ctx.e == e && ctx.size == n
      invariant RunFeed(e, n, Zeros(n), [], chunks) == RunFeed(e, n, ctx.state[..], ctx.Pending(), rest)
      decreases |rest|
    {
      ctx.Update(rest[0]);
      rest := rest[1..];
    }
    StreamTag(e, n, chunks);
    output := ctx.Finish();
  }
}
