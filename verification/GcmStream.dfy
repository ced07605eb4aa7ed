// The streaming form of GCM: what one call of mbedtls_gcm_update does to the running counter
// and hash, and why the cut of the data into calls does not matter.
module GcmStream {
  import opened Bytes
  import opened Memory
  import opened GcmSpec

  // ----- the hash with a partial last block -----

  function XorPrefix(y: Block, p: seq<bv8>): Block
    requires |p| <= 16
  {
    Xor(y[..|p|], p) + y[|p|..]
  }

  // Hashing s block by block, the last block possibly short.
  function Absorb(h: Block, y: Block, s: seq<bv8>): Block
    decreases |s|
  {
    if s == [] then y
    else
      var n := Min(16, |s|);
      Absorb(h, GMul(XorPrefix(y, s[..n]), h), s[n..])
  }

  lemma {:induction false} AbsorbAppend(h: Block, y: Block, a: seq<bv8>, b: seq<bv8>)
    requires |a| % 16 == 0
    ensures Absorb(h, y, a + b) == Absorb(h, Absorb(h, y, a), b)
    decreases |a|
  {
    hide GMul;
    if a == [] {
      assert a + b == b;
    } else {
      assert (a + b)[..16] == a[..16];
      assert (a + b)[16..] == a[16..] + b;
      AbsorbAppend(h, GMul(XorPrefix(y, a[..16]), h), a[16..], b);
    }
  }

  lemma ByteXorZero(v: bv8)
    ensures XorByte(v, 0) == v == XorByte(0, v)
  {}

  lemma ByteXorSwap(v: bv8, w: bv8)
    ensures XorByte(v, w) == XorByte(w, v)
  {}

  lemma XorPrefixPads(y: Block, s: seq<bv8>)
    requires 0 < |s| <= 16
    ensures Pad16(s) == s + Zeros(16 - |s|) && |Pad16(s)| == 16
    ensures XorPrefix(y, s) == Xor(y, Pad16(s))
  {
    forall i | 0 <= i < 16 ensures XorPrefix(y, s)[i] == Xor(y, Pad16(s))[i] {
      ByteXorZero(y[i]);
    }
  }

  // A short last block hashes like the zero-padded string.
  lemma {:induction false} AbsorbIsGhash(h: Block, y: Block, s: seq<bv8>)
    ensures Absorb(h, y, s) == Ghash(h, y, Pad16(s))
    decreases |s|
  {
    hide GMul, XorPrefix, Xor, Pad16;
    PadCut(s);
    if s != [] {
      var n := Min(16, |s|);
      XorPrefixPads(y, s[..n]);
      AbsorbIsGhash(h, GMul(XorPrefix(y, s[..n]), h), s[n..]);
    }
  }

  // Padding a string pads its last block.
  lemma PadCut(s: seq<bv8>)
    ensures s == [] ==> Pad16(s) == []
    ensures s != [] ==>
              var n := Min(16, |s|);
              |Pad16(s)| >= 16 && Pad16(s)[..16] == Pad16(s[..n]) && Pad16(s)[16..] == Pad16(s[n..])
  {
    if 0 < |s| <= 16 {
      assert s[..|s|] == s && s[|s|..] == [];
    } else if s != [] {
      PadLong(s);
    }
  }

  lemma PadLong(s: seq<bv8>)
    requires |s| >= 16
    ensures Pad16(s[..16]) == s[..16] == Pad16(s)[..16] && Pad16(s)[16..] == Pad16(s[16..])
  {
    assert |s[16..]| % 16 == |s| % 16;
    var z := Zeros((16 - |s| % 16) % 16);
    assert (s + z)[16..] == s[16..] + z;
  }

  // ----- one call of update -----

  datatype Stream = Stream(ctr: Block, acc: Block)

  function Blocks(n: nat): nat { (n + 15) / 16 }

  // The bytes that enter the hash: the ciphertext, on whichever side it is.
  function Hashed(mode: int, input: seq<bv8>, output: seq<bv8>): (r: seq<bv8>)
    requires |input| == |output|
    ensures |r| == |input|
  {
    if mode == 1 then output else if mode == 0 then input else Zeros(|input|)
  }

  function Output(E: Block -> Block, st: Stream, input: seq<bv8>): (r: seq<bv8>)
    ensures |r| == |input|
  {
    Gctr(E, Inc32(st.ctr), input)
  }

  function Next(E: Block -> Block, mode: int, st: Stream, input: seq<bv8>): Stream
  {
    Stream(IncN(st.ctr, Blocks(|input|)),
           Absorb(Subkey(E), st.acc, Hashed(mode, input, Output(E, st, input))))
  }

  lemma UpdateIs(E: Block -> Block, mode: int, st: Stream, input: seq<bv8>)
    ensures Output(E, st, input) == Gctr(E, Inc32(st.ctr), input)
    ensures Next(E, mode, st, input).acc == Absorb(Subkey(E), st.acc, Hashed(mode, input, Output(E, st, input)))
  {}

  lemma IncNLast(y: Block, n: nat)
    ensures IncN(Inc32(y), n) == Inc32(IncN(y, n)) == IncN(y, n + 1)
  {
    hide Inc32;
    IncNAdd(y, n, 1);
    assert IncN(IncN(y, n), 1) == Inc32(IncN(y, n));
  }

  // Two calls on whole blocks and then the rest do what one call does on everything.
  lemma UpdateAppend(E: Block -> Block, mode: int, st: Stream, a: seq<bv8>, b: seq<bv8>)
    requires |a| % 16 == 0
    ensures Output(E, st, a + b) == Output(E, st, a) + Output(E, Next(E, mode, st, a), b)
    ensures Next(E, mode, st, a + b) == Next(E, mode, Next(E, mode, st, a), b)
  {
    hide Inc32, Absorb, Gctr;
    var k := |a| / 16;
    assert Blocks(|a|) == k && Blocks(|a + b|) == k + Blocks(|b|);
    GctrAppend(E, Inc32(st.ctr), a, b);
    IncNLast(st.ctr, k);
    IncNAdd(st.ctr, k, Blocks(|b|));
    var x, y := Output(E, st, a), Output(E, Next(E, mode, st, a), b);
    assert Hashed(mode, a + b, x + y) == Hashed(mode, a, x) + Hashed(mode, b, y);
    AbsorbAppend(Subkey(E), st.acc, Hashed(mode, a, x), Hashed(mode, b, y));
  }

  // ----- runs of updates -----

  // Every chunk but the last is a whole number of blocks.
  predicate WholeBlocks(chunks: seq<seq<bv8>>)
  {
    forall i :: 0 <= i < |chunks| - 1 ==> |chunks[i]| % 16 == 0
  }

  function RunOutput(E: Block -> Block, mode: int, st: Stream, chunks: seq<seq<bv8>>): seq<bv8>
    decreases |chunks|
  {
    if chunks == [] then []
    else Output(E, st, chunks[0]) + RunOutput(E, mode, Next(E, mode, st, chunks[0]), chunks[1..])
  }

  function RunState(E: Block -> Block, mode: int, st: Stream, chunks: seq<seq<bv8>>): Stream
    decreases |chunks|
  {
    if chunks == [] then st else RunState(E, mode, Next(E, mode, st, chunks[0]), chunks[1..])
  }

  // The cut into calls does not matter.
  lemma {:induction false} RunIsOneCall(E: Block -> Block, mode: int, st: Stream, chunks: seq<seq<bv8>>)
    requires WholeBlocks(chunks)
    ensures RunOutput(E, mode, st, chunks) == Output(E, st, Flatten(chunks))
    ensures RunState(E, mode, st, chunks) == Next(E, mode, st, Flatten(chunks))
    decreases |chunks|
  {
    hide Inc32;
    if chunks == [] {
    } else if |chunks| == 1 {
      assert Flatten(chunks) == chunks[0] + [] == chunks[0];
    } else {
      hide Output, Next;
      assert |chunks[0]| % 16 == 0;
      RunIsOneCall(E, mode, Next(E, mode, st, chunks[0]), chunks[1..]);
      UpdateAppend(E, mode, st, chunks[0], Flatten(chunks[1..]));
    }
  }

  // ----- the whole computation -----

  function Start(E: Block -> Block, iv: seq<bv8>, add: seq<bv8>): Stream
    requires 8 * |iv| < TWO64
  {
    Stream(J0(E, iv), Absorb(Subkey(E), ZeroBlock, add))
  }

  // The tag left by mbedtls_gcm_finish, which skips the length block of an empty message.
  function FinishTag(E: Block -> Block, base: Block, acc: Block, addLen: nat, len: nat, t: nat): (r: seq<bv8>)
    requires t <= 16 && 8 * addLen < TWO64 && 8 * len < TWO64
    ensures |r| == t
  {
    if addLen == 0 && len == 0 then base[..t]
    else Xor(base[..t], GMul(Xor(acc, Lengths(addLen, len)), Subkey(E))[..t])
  }

  lemma XorZero(a: seq<bv8>)
    ensures Xor(a, Zeros(|a|)) == a == Xor(Zeros(|a|), a)
  {
    forall i | 0 <= i < |a| ensures Xor(a, Zeros(|a|))[i] == a[i] == Xor(Zeros(|a|), a)[i] {
      ByteXorZero(a[i]);
    }
  }

  // The value hashed for a and c, seen from the running hash.
  lemma TagHash(h: Block, a: seq<bv8>, c: seq<bv8>)
    requires 8 * |a| < TWO64 && 8 * |c| < TWO64
    ensures Ghash(h, ZeroBlock, TagInput(a, c))
            == GMul(Xor(Absorb(h, Absorb(h, ZeroBlock, a), c), Lengths(|a|, |c|)), h)
  {
    hide GMul, Lengths;
    var l := Lengths(|a|, |c|);
    var y := Absorb(h, ZeroBlock, a);
    AbsorbIsGhash(h, ZeroBlock, a);
    AbsorbIsGhash(h, y, c);
    GhashAppend(h, ZeroBlock, Pad16(a), PadThen(c, l));
    GhashAppend(h, y, Pad16(c), l);
    GhashOne(h, Absorb(h, y, c), l);
  }

  // The computed tag is the tag of the standard, also for the empty message whose length
  // block the code skips.
  lemma FinishIsTag(E: Block -> Block, iv: seq<bv8>, a: seq<bv8>, c: seq<bv8>, t: nat)
    requires t <= 16
    requires 8 * |iv| < TWO64 && 8 * |a| < TWO64 && 8 * |c| < TWO64
    ensures FinishTag(E, E(J0(E, iv)), Absorb(Subkey(E), Absorb(Subkey(E), ZeroBlock, a), c), |a|, |c|, t)
            == Tag(E, iv, a, c, t)
  {
    hide GMul, Lengths, J0;
    var h := Subkey(E);
    var base := E(J0(E, iv));
    var s := Ghash(h, ZeroBlock, TagInput(a, c));
    TagHash(h, a, c);
    GctrOneBlock(E, J0(E, iv), s);
    XorCommutes(s, base);
    if |a| == 0 && |c| == 0 {
      assert a == [] && c == [];
      ZeroLengths();
      XorZero(ZeroBlock);
      ZeroMul(h);
      XorZero(base);
    }
    assert Xor(base, s)[..t] == Xor(base[..t], s[..t]);
  }

  lemma ZeroLengths()
    ensures Lengths(0, 0) == ZeroBlock
  {}

  // Main result for encryption: any run of updates, all but the last on whole blocks, emits
  // the ciphertext of the standard, and finish emits its tag.
  lemma EncryptRun(E: Block -> Block, iv: seq<bv8>, a: seq<bv8>, chunks: seq<seq<bv8>>, t: nat)
    requires WholeBlocks(chunks) && t <= 16
    requires 8 * |iv| < TWO64 && 8 * |a| < TWO64 && 8 * |Flatten(chunks)| < TWO64
    ensures var p := Flatten(chunks);
            var c := Ciphertext(E, iv, p);
            && RunOutput(E, 1, Start(E, iv, a), chunks) == c
            && FinishTag(E, E(J0(E, iv)), RunState(E, 1, Start(E, iv, a), chunks).acc, |a|, |p|, t)
               == Tag(E, iv, a, c, t)
  {
    hide GMul, Lengths, J0, Gctr, Inc32;
    RunIsOneCall(E, 1, Start(E, iv, a), chunks);
    FinishIsTag(E, iv, a, Ciphertext(E, iv, Flatten(chunks)), t);
  }

  // Main result for decryption: fed the ciphertext of p in any such cut, the run returns p
  // and finish recomputes the same tag.
  lemma DecryptRun(E: Block -> Block, iv: seq<bv8>, a: seq<bv8>, p: seq<bv8>, chunks: seq<seq<bv8>>, t: nat)
    requires WholeBlocks(chunks) && t <= 16
    requires 8 * |iv| < TWO64 && 8 * |a| < TWO64 && 8 * |p| < TWO64
    requires Flatten(chunks) == Ciphertext(E, iv, p)
    ensures RunOutput(E, 0, Start(E, iv, a), chunks) == p
    ensures FinishTag(E, E(J0(E, iv)), RunState(E, 0, Start(E, iv, a), chunks).acc, |a|, |p|, t)
            == Tag(E, iv, a, Ciphertext(E, iv, p), t)
  {
    hide GMul, Lengths, J0, Gctr, Inc32;
    RunIsOneCall(E, 0, Start(E, iv, a), chunks);
    FinishIsTag(E, iv, a, Ciphertext(E, iv, p), t);
    GctrInvolution(E, Inc32(J0(E, iv)), p);
  }
}
