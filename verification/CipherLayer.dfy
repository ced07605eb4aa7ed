// The CBC branches of mbedtls_cipher_update and mbedtls_cipher_finish (share/crypto/cipher.c).
module CipherLayer {
  import opened Bytes
  import opened Memory
  import opened CbcSpec
  import opened Padding

  const BAD_INPUT_DATA := -0x6100
  const FULL_BLOCK_EXPECTED := -0x6280
  const INVALID_INPUT_LENGTH := -0x22

  datatype PaddingMode = NoPadding | With(scheme: Scheme)

  // ----- sizes -----

  lemma LessOne(n: nat, len: nat)
    requires (n == 8 || n == 16) && len >= n
    ensures (len - n) % n == len % n
  {}

  // What is left of len bytes is a remainder, or a whole block that decryption keeps.
  lemma {:induction false} CutMod(enc: bool, n: nat, len: nat)
    requires n == 8 || n == 16
    ensures var left := len % n;
            Cut(enc, n, len) == if len == 0 then 0 else if left == 0 && !enc then len - n else len - left
    decreases len
  {
    hide Cut;
    CutStep(enc, n, len);
    if len >= n {
      LessOne(n, len);
      if enc || len > n {
        CutMod(enc, n, len - n);
      }
    }
  }

  lemma {:induction false} WholeMod(n: nat, len: nat)
    requires n == 8 || n == 16
    ensures Whole(n, len) <==> len % n == 0
    decreases len
  {
    if len >= n {
      LessOne(n, len);
      WholeMod(n, len - n);
    }
  }

  lemma WholeOne(n: nat)
    requires n > 0
    ensures Whole(n, n) && Whole(n, 0)
  {}

  // A first block, made of pending bytes and new ones, is processed before the rest.
  lemma FirstBlock(enc: bool, e: BlockCipher, n: nat, st: Stream, input: seq<bv8>, k: nat)
    requires Enciphers(e, n) && |st.iv| == n && |st.pending| + k == n && k <= |input|
    requires enc || k < |input|
    requires Whole(n, n)
    ensures var block := st.pending + input[..k];
            var (y, next) := Cbc(enc, e, n, st.iv, block);
            && Output(enc, e, n, st, input) == y + Output(enc, e, n, Stream(next, []), input[k..])
            && Next(enc, e, n, st, input) == Next(enc, e, n, Stream(next, []), input[k..])
  {
    hide Cut, Cbc, Whole;
    var all, block, rest := st.pending + input, st.pending + input[..k], input[k..];
    assert [] + rest == rest;
    CutStep(enc, n, |all|);
    var l := Cut(enc, n, |rest|);
    CbcAppend(enc, e, n, st.iv, block, rest[..l]);
    Regroup(st.pending, input, k, l);
  }

  // ----- the context -----

  // What get_padding reports for the last block.
  ghost predicate Recovered(mode: PaddingMode, block: seq<bv8>, ret: int, len: int)
    requires 0 < |block| <= MAX_BLOCK
  {
    match mode
    case NoPadding => ret == 0 && len == |block|
    case With(TrailingZeros) =>
      && ret == 0 && 0 <= len <= |block|
      && (forall k :: len <= k < |block| ==> block[k] == 0)
      && (len > 0 ==> block[len - 1] != 0)
    case With(OneAndZeros) =>
      if ret == 0 then 0 <= len && OneAndZerosAccepts(block, len)
      else ret == INVALID_PADDING && forall k: nat :: !OneAndZerosAccepts(block, k)
    case With(p) =>
      if ret == 0 then 0 <= len && IsPadded(p, block, len)
      else ret == INVALID_PADDING && forall k: nat :: !IsPadded(p, block, k)
  }

  class CipherContext {
    const encrypt: bool
    const e: BlockCipher
    const size: nat
    const padding: PaddingMode
    const iv: array<bv8>
    const data: array<bv8>
    var len: nat

    ghost predicate Valid()
      reads this
    {
      && Enciphers(e, size) && iv != data && iv.Length == data.Length == size
      && if encrypt then len < size else len <= size
    }

    ghost function State(): (st: Stream)
      requires Valid()
      reads this, iv, data
      ensures |st.iv| == size && Settled(encrypt, size, st)
    {
      Stream(iv[..], data[..len])
    }

    // setup, set_iv and reset: e is the direction's cipher.
    constructor (encrypt: bool, e: BlockCipher, size: nat, padding: PaddingMode, iv: seq<bv8>)
      requires Enciphers(e, size) && |iv| == size
      ensures Valid() && State() == Stream(iv, []) && fresh(this.iv) && fresh(data)
      ensures this.encrypt == encrypt && this.e == e && this.size == size && this.padding == padding
    {
      this.encrypt, this.e, this.size, this.padding, len := encrypt, e, size, padding, 0;
      this.iv := new bv8[size](i requires 0 <= i < size => iv[i]);
      data := new bv8[size](_ => 0);
    }

    method CryptBlock(x: seq<bv8>) returns (y: seq<bv8>)
      requires Valid() && |x| == size
      modifies iv
      ensures y == One(encrypt, e, size, old(iv[..]), x) && iv[..] == Chained(encrypt, x, y)
    {
      hide One, Chained;
      y := One(encrypt, e, size, iv[..], x);
      StoreAt(iv, 0, Chained(encrypt, x, y));
      assert iv[..] == Chained(encrypt, x, y);
    }

    // cbc_func: block after block, the chaining value in iv; a ragged length is refused.
    method CryptCbc(input: seq<bv8>) returns (ret: int, output: seq<bv8>)
      requires Valid()
      modifies iv
      ensures Whole(size, |input|) <==> |input| % size == 0
      ensures if |input| % size != 0 then ret == INVALID_INPUT_LENGTH && output == [] && iv[..] == old(iv[..])
              else ret == 0 && (output, iv[..]) == Cbc(encrypt, e, size, old(iv[..]), input)
    {
      hide One, Chained, Cbc, Along;
      WholeMod(size, |input|);
      if |input| % size != 0 {
        return INVALID_INPUT_LENGTH, [];
      }
      ret, output := 0, [];
      var rest := input;
      ghost var iv0 := iv[..];
      AlongStart(encrypt, e, size, iv0, input);
      while |rest| > 0
        invariant Along(encrypt, e, size, iv0, input, output, iv[..], rest)
        decreases |rest|
      {
        AlongStep(encrypt, e, size, iv0, input, output, iv[..], rest);
        var y := CryptBlock(rest[..size]);
        output := output + y;
        rest := rest[size..];
      }
      AlongEnd(encrypt, e, size, iv0, input, output, iv[..]);
    }

    method Update(input: seq<bv8>, inPlace: bool) returns (ret: int, output: seq<bv8>)
      requires Valid()
      modifies this`len, iv, data
      ensures Valid()
      ensures if inPlace && (old(len) != 0 || |input| % size != 0)
              then ret == BAD_INPUT_DATA && output == [] && State() == old(State())
              else ret == 0 && output == Output(encrypt, e, size, old(State()), input)
                   && State() == Next(encrypt, e, size, old(State()), input)
    {
      hide Cut, Cbc, Whole;
      output := [];
      if inPlace && (len != 0 || |input| % size != 0) {
        return BAD_INPUT_DATA, [];
      }
      ghost var st := State();
      var room := size - len;
      WholeOne(size);
      if (!encrypt && |input| <= room) || (encrypt && |input| < room) {
        CutStep(encrypt, size, len + |input|);
        Nothing(encrypt, e, size, st, input);
        StoreAt(data, len, input);
        len := len + |input|;
        assert data[..len] == st.pending + input;
        return 0, [];
      }
      var rest := input;
      if len != 0 {
        StoreAt(data, len, input[..room]);
        assert data[..] == st.pending + input[..room];
        FirstBlock(encrypt, e, size, st, input, room);
        ret, output := CryptCbc(data[..]);
        if ret != 0 {
          return;
        }
        len := 0;
        rest := input[room..];
      }
      var more;
      ret, more := Blocks(rest);
      assert [] + more == more;
      output := output + more;
    }

    // The last, incomplete block is cached before the full blocks are processed.
    method Blocks(input: seq<bv8>) returns (ret: int, output: seq<bv8>)
      requires Valid() && len == 0
      modifies this`len, iv, data
      ensures Valid() && ret == 0
      ensures output == Output(encrypt, e, size, Stream(old(iv[..]), []), input)
      ensures State() == Next(encrypt, e, size, Stream(old(iv[..]), []), input)
    {
      hide Cut, Cbc, Whole;
      assert [] + input == input;
      CutMod(encrypt, size, |input|);
      var ilen := |input|;
      if ilen != 0 {
        var copyLen := ilen % size;
        if copyLen == 0 && !encrypt {
          copyLen := size;
        }
        StoreAt(data, 0, input[ilen - copyLen..]);
        len := len + copyLen;
        ilen := ilen - copyLen;
      }
      assert data[..len] == input[ilen..];
      ret, output := 0, [];
      if ilen != 0 {
        WholeMod(size, ilen);
        ret, output := CryptCbc(input[..ilen]);
      } else {
        CbcNone(encrypt, e, size, iv[..]);
        assert input[..0] == [];
      }
    }

    // The last block: filled up in encryption, complete and then stripped in decryption.
    method Finish() returns (ret: int, output: seq<bv8>, olen: int)
      requires Valid()
      modifies iv, data
      ensures Valid() && len == old(len)
      ensures encrypt && padding.With? ==>
              ret == 0 && olen == size && output == LastBlock(e, size, padding.scheme, old(State()))
      ensures encrypt && padding.With? ==> data[..] == PadTo(padding.scheme, size, old(data[..len])) && iv[..] == output
      ensures encrypt && padding.NoPadding? ==>
              output == [] && olen == 0 && ret == if len == 0 then 0 else FULL_BLOCK_EXPECTED
      ensures !encrypt && len == size ==>
                && output == Cbc(false, e, size, old(iv[..]), old(data[..])).0
                && Recovered(padding, output, ret, olen)
                && iv[..] == old(data[..]) == data[..]
      ensures (if encrypt then padding.NoPadding? else len != size) ==>
              iv[..] == old(iv[..]) && data[..] == old(data[..])
      ensures !encrypt && len != size ==>
                && output == [] && olen == 0
                && ret == if padding.NoPadding? && len == 0 then 0 else FULL_BLOCK_EXPECTED
    {
      hide Cbc, Whole, PadTo, OneAndZerosAccepts;
      WholeOne(size);
      if encrypt {
        match padding {
          case NoPadding =>
            ret := if len != 0 then FULL_BLOCK_EXPECTED else 0;
            return ret, [], 0;
          case With(p) =>
            AddPadding(p);
        }
      } else if size != len {
        ret := if padding.NoPadding? && len == 0 then 0 else FULL_BLOCK_EXPECTED;
        return ret, [], 0;
      }
      OneBlock(encrypt, e, size, iv[..], data[..]);
      ret, output := CryptCbc(data[..]);
      if ret != 0 {
        return;
      }
      olen := size;
      if !encrypt {
        ret, olen := GetPadding(output);
      }
    }

    method AddPadding(p: Scheme)
      requires Valid() && len < size
      modifies data
      ensures data[..] == PadTo(p, size, old(data[..len]))
    {
      match p
      case Pkcs7 => AddPkcs(data, len);
      case OneAndZeros => AddOneAndZeros(data, len);
      case ZerosAndLen => AddZerosAndLen(data, len);
      case TrailingZeros => AddZeros(data, len);
    }

    method GetPadding(block: seq<bv8>) returns (ret: int, olen: int)
      requires 0 < |block| <= MAX_BLOCK
      ensures Recovered(padding, block, ret, olen)
    {
      hide PadTo, OneAndZerosAccepts;
      match padding
      case NoPadding =>
        ret, olen := 0, |block|;
      case With(p) =>
        match p {
          case Pkcs7 => ret, olen := GetPkcs(block);
          case OneAndZeros => ret, olen := GetOneAndZeros(block);
          case ZerosAndLen => ret, olen := GetZerosAndLen(block);
          case TrailingZeros =>
            olen := GetZeros(block);
            ret := 0;
        }
    }
  }

  // What finish emits when it encrypts.
  function LastBlock(e: BlockCipher, n: nat, p: Scheme, st: Stream): (r: seq<bv8>)
    requires Enciphers(e, n) && |st.iv| == n && |st.pending| < n
    ensures |r| == n
  {
    WholeOne(n);
    Cbc(true, e, n, st.iv, PadTo(p, n, st.pending)).0
  }

  lemma CbcOne(enc: bool, e: BlockCipher, n: nat, iv: seq<bv8>, s: seq<bv8>)
    requires Enciphers(e, n) && |iv| == n && Whole(n, |s|) && s != []
    ensures |s| >= n && Whole(n, |s| - n)
    ensures var y := One(enc, e, n, iv, s[..n]);
            var next := Chained(enc, s[..n], y);
            Cbc(enc, e, n, iv, s) == (y + Cbc(enc, e, n, next, s[n..]).0, Cbc(enc, e, n, next, s[n..]).1)
  {}

  // A single block leaves its ciphertext as the chaining value.
  lemma OneBlock(enc: bool, e: BlockCipher, n: nat, iv: seq<bv8>, x: seq<bv8>)
    requires Enciphers(e, n) && |iv| == |x| == n
    ensures Whole(n, n)
    ensures Cbc(enc, e, n, iv, x).1 == if enc then Cbc(enc, e, n, iv, x).0 else x
  {
    WholeOne(n);
    CbcOne(enc, e, n, iv, x);
    var y := One(enc, e, n, iv, x[..n]);
    CbcNone(enc, e, n, Chained(enc, x[..n], y));
    assert x[..n] == x && x[n..] == [] && y + [] == y;
  }

  // What a pass over the blocks keeps: the output so far and the rest from here.
  ghost predicate Along(enc: bool, e: BlockCipher, n: nat, iv0: seq<bv8>, input: seq<bv8>, output: seq<bv8>,
                        iv: seq<bv8>, rest: seq<bv8>)
    requires Enciphers(e, n) && |iv0| == |iv| == n && Whole(n, |input|)
  {
    Whole(n, |rest|) && Cbc(enc, e, n, iv0, input) == (output + Cbc(enc, e, n, iv, rest).0, Cbc(enc, e, n, iv, rest).1)
  }

  lemma AlongStart(enc: bool, e: BlockCipher, n: nat, iv: seq<bv8>, input: seq<bv8>)
    requires Enciphers(e, n) && |iv| == n && Whole(n, |input|)
    ensures Along(enc, e, n, iv, input, [], iv, input)
  {
    hide Cbc;
    assert [] + Cbc(enc, e, n, iv, input).0 == Cbc(enc, e, n, iv, input).0;
  }

  lemma AlongStep(enc: bool, e: BlockCipher, n: nat, iv0: seq<bv8>, input: seq<bv8>, output: seq<bv8>, iv: seq<bv8>,
                  rest: seq<bv8>)
    requires Enciphers(e, n) && |iv0| == |iv| == n && Whole(n, |input|)
    requires Along(enc, e, n, iv0, input, output, iv, rest) && |rest| > 0
    ensures |rest| >= n
    ensures var y := One(enc, e, n, iv, rest[..n]);
            Along(enc, e, n, iv0, input, output + y, Chained(enc, rest[..n], y), rest[n..])
  {
    hide Cbc, One, Chained, Whole;
    CbcOne(enc, e, n, iv, rest);
    var y := One(enc, e, n, iv, rest[..n]);
    var tail := Cbc(enc, e, n, Chained(enc, rest[..n], y), rest[n..]).0;
    assert output + (y + tail) == (output + y) + tail;
  }

  lemma AlongEnd(enc: bool, e: BlockCipher, n: nat, iv0: seq<bv8>, input: seq<bv8>, output: seq<bv8>, iv: seq<bv8>)
    requires Enciphers(e, n) && |iv0| == |iv| == n && Whole(n, |input|)
    requires Along(enc, e, n, iv0, input, output, iv, [])
    ensures Cbc(enc, e, n, iv0, input) == (output, iv)
  {
    CbcNone(enc, e, n, iv);
    assert output + [] == output;
  }

  lemma CbcNone(enc: bool, e: BlockCipher, n: nat, iv: seq<bv8>)
    requires Enciphers(e, n) && |iv| == n
    ensures Whole(n, 0) && Cbc(enc, e, n, iv, []) == ([], iv)
  {}

  lemma Nothing(enc: bool, e: BlockCipher, n: nat, st: Stream, input: seq<bv8>)
    requires Enciphers(e, n) && |st.iv| == n && Cut(enc, n, |st.pending + input|) == 0
    ensures Output(enc, e, n, st, input) == []
    ensures Next(enc, e, n, st, input) == Stream(st.iv, st.pending + input)
  {
    var all := st.pending + input;
    assert all[..0] == [] && all[0..] == all;
  }

  // ----- whole messages -----

  // The message filled up to whole blocks: at least one byte is always added.
  function PadMessage(p: Scheme, n: nat, m: seq<bv8>): (r: seq<bv8>)
    requires n == 8 || n == 16
    ensures Whole(n, |r|) && |r| > 0
  {
    hide Filler;
    var l := n - |m| % n;
    FillsUp(n, |m|);
    m + Filler(p, l)
  }

  lemma {:induction false} FillsUp(n: nat, len: nat)
    requires n == 8 || n == 16
    ensures Whole(n, len + (n - len % n))
    decreases len
  {
    if len >= n {
      LessOne(n, len);
      FillsUp(n, len - n);
    }
  }

  // Main result: however the message is cut, the updates and finish emit CBC of the padded
  // message.
  lemma StreamEncrypts(e: BlockCipher, n: nat, p: Scheme, iv: seq<bv8>, chunks: seq<seq<bv8>>)
    requires Enciphers(e, n) && |iv| == n
    ensures var st := RunState(true, e, n, Stream(iv, []), chunks);
            && |st.pending| < n
            && RunOutput(true, e, n, Stream(iv, []), chunks) + LastBlock(e, n, p, st)
               == Cbc(true, e, n, iv, PadMessage(p, n, Flatten(chunks))).0
  {
    hide Cut, Cbc, Whole, PadTo, PadMessage, RunState, RunOutput;
    var m, st := Flatten(chunks), Stream(iv, []);
    RunIsOneCall(true, e, n, st, chunks);
    assert [] + m == m;
    var k := Cut(true, n, |m|);
    WholeOne(n);
    PadsLast(p, n, m);
    CbcAppend(true, e, n, iv, m[..k], PadTo(p, n, m[k..]));
  }

  lemma PadsLast(p: Scheme, n: nat, m: seq<bv8>)
    requires n == 8 || n == 16
    ensures var k := Cut(true, n, |m|);
            PadMessage(p, n, m) == m[..k] + PadTo(p, n, m[k..])
  {
    hide Cut, Filler;
    CutMod(true, n, |m|);
    var k := Cut(true, n, |m|);
    assert m == m[..k] + m[k..];
  }

  // Main result: a ciphertext cut in any other way decrypts to the message, for the three
  // schemes that mark where the data ends.
  lemma StreamDecrypts(e: BlockCipher, d: BlockCipher, n: nat, p: Scheme, iv: seq<bv8>, m: seq<bv8>,
                       chunks: seq<seq<bv8>>)
    requires Enciphers(e, n) && Enciphers(d, n) && Inverse(d, e, n) && |iv| == n && p != TrailingZeros
    requires Flatten(chunks) == Cbc(true, e, n, iv, PadMessage(p, n, m)).0
    ensures var st := RunState(false, d, n, Stream(iv, []), chunks);
            && |st.pending| == n && Whole(n, n)
            && var block := Cbc(false, d, n, st.iv, st.pending).0;
            forall ret, len :: Recovered(With(p), block, ret, len) ==>
              && ret == 0 && 0 <= len <= n
              && RunOutput(false, d, n, Stream(iv, []), chunks) + block[..len] == m
  {
    hide Cut, Cbc, Whole, PadTo, PadMessage, IsPadded, Recovered, RunState, RunOutput;
    var out, block := DecryptsToPadded(e, d, n, p, iv, m, chunks);
    var k := |m| - |out|;
    forall ret, len | Recovered(With(p), block, ret, len)
      ensures ret == 0 && 0 <= len <= n && out + block[..len] == m
    {
      StripPadding(p, block, k, ret, len);
    }
  }

  // The decryption stream ends on the padded block, whatever the scheme.
  lemma DecryptsToPadded(e: BlockCipher, d: BlockCipher, n: nat, p: Scheme, iv: seq<bv8>, m: seq<bv8>,
                         chunks: seq<seq<bv8>>)
    returns (out: seq<bv8>, block: seq<bv8>)
    requires Enciphers(e, n) && Enciphers(d, n) && Inverse(d, e, n) && |iv| == n
    requires Flatten(chunks) == Cbc(true, e, n, iv, PadMessage(p, n, m)).0
    ensures var st := RunState(false, d, n, Stream(iv, []), chunks);
            && out == RunOutput(false, d, n, Stream(iv, []), chunks)
            && |st.pending| == n && Whole(n, n)
            && block == Cbc(false, d, n, st.iv, st.pending).0
    ensures |block| == n && |out| <= |m| < |out| + n && |out| == |m| - |m| % n
    ensures IsPadded(p, block, |m| - |out|) && out + block[..|m| - |out|] == m
  {
    hide Cut, Cbc, Whole, Filler;
    var c, st, padded := Flatten(chunks), Stream(iv, []), PadMessage(p, n, m);
    RunIsOneCall(false, d, n, st, chunks);
    assert [] + c == c;
    CutWhole(false, n, |c|);
    WholeOne(n);
    var k := |c| - n;
    var end := RunState(false, d, n, st, chunks);
    out := Cbc(false, d, n, iv, c[..k]).0;
    block := Cbc(false, d, n, end.iv, end.pending).0;
    CbcAppend(false, d, n, iv, c[..k], c[k..]);
    Rejoin(c, k);
    CbcRoundTrip(e, d, n, iv, padded);
    assert out + block == padded;
    Located(p, n, m, out, block);
  }

  lemma Located(p: Scheme, n: nat, m: seq<bv8>, out: seq<bv8>, block: seq<bv8>)
    requires (n == 8 || n == 16) && |block| == n && out + block == PadMessage(p, n, m)
    ensures |out| <= |m| < |out| + n && |out| == |m| - |m| % n
    ensures IsPadded(p, block, |m| - |out|) && out + block[..|m| - |out|] == m
  {
    hide Filler, Whole;
    var padded := PadMessage(p, n, m);
    assert |out| + n == |m| + (n - |m| % n);
    var k := |m| - |out|;
    Overlap(out, block, m, Filler(p, n - k));
  }

  // The padding that was added is what get_padding finds.
  lemma StripPadding(p: Scheme, block: seq<bv8>, k: nat, ret: int, len: int)
    requires 0 < |block| <= MAX_BLOCK && p != TrailingZeros && IsPadded(p, block, k)
    requires Recovered(With(p), block, ret, len)
    ensures ret == 0 && len == k
  {
    hide PadTo, OneAndZerosAccepts;
    if p == OneAndZeros {
      OneAndZerosIs(block, k);
      OneLast(block);
    } else if ret == 0 {
      PadToInjective(p, |block|, block[..k], block[..len]);
    }
  }

  lemma OneLast(s: seq<bv8>)
    ensures forall i: nat, j: nat :: OneAndZerosAccepts(s, i) && OneAndZerosAccepts(s, j) ==> i == j
  {
    hide Clear, Every, Some;
    forall i: nat, j: nat | OneAndZerosAccepts(s, i) && OneAndZerosAccepts(s, j) ensures i == j {
      assert s[i] != 0 && s[j] != 0;
    }
  }

  // Trailing zeros mark nothing: the message comes back exactly when it is a whole number of
  // blocks or does not end in a zero byte.
  lemma ZerosDecrypt(e: BlockCipher, d: BlockCipher, n: nat, iv: seq<bv8>, m: seq<bv8>, chunks: seq<seq<bv8>>)
    requires Enciphers(e, n) && Enciphers(d, n) && Inverse(d, e, n) && |iv| == n
    requires Flatten(chunks) == Cbc(true, e, n, iv, PadMessage(TrailingZeros, n, m)).0
    ensures var st := RunState(false, d, n, Stream(iv, []), chunks);
            && |st.pending| == n && Whole(n, n)
            && var block := Cbc(false, d, n, st.iv, st.pending).0;
            forall ret, len :: Recovered(With(TrailingZeros), block, ret, len) ==>
              && ret == 0 && 0 <= len <= n
              && (RunOutput(false, d, n, Stream(iv, []), chunks) + block[..len] == m
                  <==> |m| % n == 0 || m[|m| - 1] != 0)
  {
    hide Cut, Cbc, Whole, PadTo, PadMessage, RunState, RunOutput;
    var out, block := DecryptsToPadded(e, d, n, TrailingZeros, iv, m, chunks);
    forall ret, len | Recovered(With(TrailingZeros), block, ret, len)
      ensures ret == 0 && 0 <= len <= n && (out + block[..len] == m <==> |m| % n == 0 || m[|m| - 1] != 0)
    {
      ZerosStripped(block, m, out, len);
    }
  }

  lemma ZerosStripped(block: seq<bv8>, m: seq<bv8>, out: seq<bv8>, len: int)
    requires 0 < |block| <= MAX_BLOCK && |out| <= |m| < |out| + |block|
    requires IsPadded(TrailingZeros, block, |m| - |out|) && out + block[..|m| - |out|] == m
    requires Recovered(With(TrailingZeros), block, 0, len)
    ensures out + block[..len] == m <==> |m| == |out| || m[|m| - 1] != 0
  {
    hide PadTo;
    var k := |m| - |out|;
    PadToAt(TrailingZeros, |block|, block[..k]);
    assert k > 0 ==> m[|m| - 1] == block[k - 1];
    assert |out + block[..len]| == |out| + len;
  }

  // ----- contexts over whole messages -----

  // Any run of updates of a context.
  method RunUpdates(ctx: CipherContext, chunks: seq<seq<bv8>>) returns (output: seq<bv8>)
    requires ctx.Valid()
    modifies ctx`len, ctx.iv, ctx.data
    ensures ctx.Valid()
    ensures output == RunOutput(ctx.encrypt, ctx.e, ctx.size, old(ctx.State()), chunks)
    ensures ctx.State() == RunState(ctx.encrypt, ctx.e, ctx.size, old(ctx.State()), chunks)
  {
    hide Output, Next;
    output := [];
    var rest := chunks;
    ghost var st := ctx.State();
    ghost var all := RunOutput(ctx.encrypt, ctx.e, ctx.size, st, chunks);
    assert [] + all == all;
    while rest != []
      invariant ctx.Valid()
      invariant RunState(ctx.encrypt, ctx.e, ctx.size, st, chunks)
                == RunState(ctx.encrypt, ctx.e, ctx.size, ctx.State(), rest)
      invariant all == output + RunOutput(ctx.encrypt, ctx.e, ctx.size, ctx.State(), rest)
      decreases |rest|
    {
      var _, more := ctx.Update(rest[0], false);
      Associative(output, more, RunOutput(ctx.encrypt, ctx.e, ctx.size, ctx.State(), rest[1..]));
      output := output + more;
      rest := rest[1..];
    }
    assert output + [] == output;
  }

  // Main result: a context driven through any cut of the message emits CBC of the padded message.
  method EncryptInPieces(e: BlockCipher, n: nat, p: Scheme, iv: seq<bv8>, chunks: seq<seq<bv8>>)
    returns (ret: int, output: seq<bv8>)
    requires Enciphers(e, n) && |iv| == n
    ensures ret == 0 && output == Cbc(true, e, n, iv, PadMessage(p, n, Flatten(chunks))).0
  {
    hide Cut, Cbc, Whole, PadTo, PadMessage, RunState, RunOutput, LastBlock;
    var ctx := new CipherContext(true, e, n, With(p), iv);
    output := RunUpdates(ctx, chunks);
    StreamEncrypts(e, n, p, iv, chunks);
    var last, olen;
    ret, last, olen := ctx.Finish();
    output := output + last;
  }

  // Main result: a context driven through any other cut of that returns the message.
  method DecryptInPieces(ghost e: BlockCipher, d: BlockCipher, n: nat, p: Scheme, iv: seq<bv8>, ghost m: seq<bv8>,
                         chunks: seq<seq<bv8>>) returns (ret: int, output: seq<bv8>)
    requires Enciphers(e, n) && Enciphers(d, n) && Inverse(d, e, n) && |iv| == n && p != TrailingZeros
    requires Flatten(chunks) == Cbc(true, e, n, iv, PadMessage(p, n, m)).0
    ensures ret == 0 && output == m
  {
    hide Cut, Cbc, Whole, PadTo, PadMessage, IsPadded, Recovered, RunState, RunOutput;
    var ctx := new CipherContext(false, d, n, With(p), iv);
    output := RunUpdates(ctx, chunks);
    StreamDecrypts(e, d, n, p, iv, m, chunks);
    assert ctx.data[..] == ctx.data[..ctx.len];
    var last, olen;
    ret, last, olen := ctx.Finish();
    output := output + last[..olen];
  }
}
