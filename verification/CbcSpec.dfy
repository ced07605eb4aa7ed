// Cipher block chaining as section 6.2 of NIST SP 800-38A defines it, and its streaming form.
module CbcSpec {
  import opened Bytes
  import opened Memory

  predicate Whole(n: nat, len: nat)
    requires n > 0
  {
    len == 0 || (len >= n && Whole(n, len - n))
  }

  // One block; e enciphers in the one direction and deciphers in the other.
  function One(enc: bool, e: BlockCipher, n: nat, iv: seq<bv8>, x: seq<bv8>): (r: seq<bv8>)
    requires Enciphers(e, n) && |iv| == |x| == n
    ensures |r| == n
  {
    if enc then e(Xor(x, iv)) else Xor(e(x), iv)
  }

  // The chaining value for the next block is the ciphertext block.
  function Chained(enc: bool, x: seq<bv8>, y: seq<bv8>): (r: seq<bv8>)
    requires |x| == |y|
    ensures |r| == |x|
  {
    if enc then y else x
  }

  // The output for s, and the chaining value it leaves.
  function Cbc(enc: bool, e: BlockCipher, n: nat, iv: seq<bv8>, s: seq<bv8>): (r: (seq<bv8>, seq<bv8>))
    requires Enciphers(e, n) && |iv| == n && Whole(n, |s|)
    ensures |r.0| == |s| && |r.1| == n
    decreases |s|
  {
    if s == [] then ([], iv)
    else
      var y := One(enc, e, n, iv, s[..n]);
      var (rest, last) := Cbc(enc, e, n, Chained(enc, s[..n], y), s[n..]);
      (y + rest, last)
  }

  lemma {:induction false} CbcAppend(enc: bool, e: BlockCipher, n: nat, iv: seq<bv8>, a: seq<bv8>, b: seq<bv8>)
    requires Enciphers(e, n) && |iv| == n && Whole(n, |a|) && Whole(n, |b|)
    ensures Whole(n, |a + b|)
    ensures var (x, mid) := Cbc(enc, e, n, iv, a);
            var (y, last) := Cbc(enc, e, n, mid, b);
            Cbc(enc, e, n, iv, a + b) == (x + y, last)
    decreases |a|
  {
    hide One, Chained;
    if a == [] {
      assert a + b == b;
      assert [] + Cbc(enc, e, n, iv, b).0 == Cbc(enc, e, n, iv, b).0;
    } else {
      var y := One(enc, e, n, iv, a[..n]);
      var next := Chained(enc, a[..n], y);
      assert (a + b)[..n] == a[..n] && (a + b)[n..] == a[n..] + b;
      CbcAppend(enc, e, n, next, a[n..], b);
      var x := Cbc(enc, e, n, next, a[n..]);
      var z := Cbc(enc, e, n, x.1, b).0;
      assert y + (x.0 + z) == (y + x.0) + z;
    }
  }

  ghost predicate Inverse(d: BlockCipher, e: BlockCipher, n: nat)
  {
    forall b :: |b| == n ==> d(e(b)) == b
  }

  // Decryption undoes encryption and chains through the same values.
  lemma {:induction false} CbcRoundTrip(e: BlockCipher, d: BlockCipher, n: nat, iv: seq<bv8>, s: seq<bv8>)
    requires Enciphers(e, n) && Enciphers(d, n) && Inverse(d, e, n) && |iv| == n && Whole(n, |s|)
    ensures Cbc(false, d, n, iv, Cbc(true, e, n, iv, s).0) == (s, Cbc(true, e, n, iv, s).1)
    decreases |s|
  {
    if s != [] {
      var y := One(true, e, n, iv, s[..n]);
      var c := Cbc(true, e, n, iv, s).0;
      assert c[..n] == y && c[n..] == Cbc(true, e, n, y, s[n..]).0;
      XorTwice(s[..n], iv);
      CbcRoundTrip(e, d, n, y, s[n..]);
      assert s == s[..n] + s[n..];
    }
  }

  // ----- what one call processes -----

  // Of len bytes, those that are processed at once: whole blocks, and in decryption not the
  // last one, which may turn out to be the padding.
  function Cut(enc: bool, n: nat, len: nat): (k: nat)
    requires n > 0
    ensures k <= len && Whole(n, k)
    ensures if enc then len - k < n else len - k <= n
    ensures !enc && len > 0 ==> len - k > 0
  {
    if len < n || (!enc && len == n) then 0 else n + Cut(enc, n, len - n)
  }

  lemma {:induction false} CutAdd(enc: bool, n: nat, len: nat, more: nat)
    requires n > 0
    ensures Cut(enc, n, len + more) == Cut(enc, n, len) + Cut(enc, n, len - Cut(enc, n, len) + more)
    decreases len
  {
    hide Cut;
    CutStep(enc, n, len);
    if len >= n && (enc || len > n) {
      CutAdd(enc, n, len - n, more);
      CutStep(enc, n, len + more);
    }
  }

  lemma CutStep(enc: bool, n: nat, len: nat)
    requires n > 0
    ensures Cut(enc, n, len) == if len < n || (!enc && len == n) then 0 else n + Cut(enc, n, len - n)
  {}

  // The cut is the largest one possible.
  lemma {:induction false} CutWhole(enc: bool, n: nat, len: nat)
    requires n > 0
    ensures Whole(n, len) && len > 0 ==> Cut(enc, n, len) == if enc then len else len - n
    ensures Whole(n, len) <==> Cut(true, n, len) == len
    decreases len
  {
    if len >= n {
      CutWhole(enc, n, len - n);
    }
  }

  // The chaining value and the bytes not yet processed.
  datatype Stream = Stream(iv: seq<bv8>, pending: seq<bv8>)

  function Output(enc: bool, e: BlockCipher, n: nat, st: Stream, input: seq<bv8>): seq<bv8>
    requires Enciphers(e, n) && |st.iv| == n
  {
    var all := st.pending + input;
    Cbc(enc, e, n, st.iv, all[..Cut(enc, n, |all|)]).0
  }

  function Next(enc: bool, e: BlockCipher, n: nat, st: Stream, input: seq<bv8>): (r: Stream)
    requires Enciphers(e, n) && |st.iv| == n
    ensures |r.iv| == n
  {
    var all := st.pending + input;
    var k := Cut(enc, n, |all|);
    Stream(Cbc(enc, e, n, st.iv, all[..k]).1, all[k..])
  }

  // Two calls do what one does on everything.
  lemma UpdateAppend(enc: bool, e: BlockCipher, n: nat, st: Stream, a: seq<bv8>, b: seq<bv8>)
    requires Enciphers(e, n) && |st.iv| == n
    ensures Output(enc, e, n, st, a + b) == Output(enc, e, n, st, a) + Output(enc, e, n, Next(enc, e, n, st, a), b)
    ensures Next(enc, e, n, st, a + b) == Next(enc, e, n, Next(enc, e, n, st, a), b)
  {
    hide Cut, Cbc, Whole;
    var one, all := st.pending + a, st.pending + (a + b);
    var k := Cut(enc, n, |one|);
    var two := one[k..] + b;
    var l := Cut(enc, n, |two|);
    CutAdd(enc, n, |one|, |b|);
    CbcAppend(enc, e, n, st.iv, one[..k], two[..l]);
    assert all == one + b;
    Recut(one, b, k, l);
  }

  // ----- runs -----

  function RunOutput(enc: bool, e: BlockCipher, n: nat, st: Stream, chunks: seq<seq<bv8>>): seq<bv8>
    requires Enciphers(e, n) && |st.iv| == n
    decreases |chunks|
  {
    if chunks == [] then []
    else Output(enc, e, n, st, chunks[0]) + RunOutput(enc, e, n, Next(enc, e, n, st, chunks[0]), chunks[1..])
  }

  function RunState(enc: bool, e: BlockCipher, n: nat, st: Stream, chunks: seq<seq<bv8>>): (r: Stream)
    requires Enciphers(e, n) && |st.iv| == n
    ensures |r.iv| == n
    decreases |chunks|
  {
    if chunks == [] then st
    else RunState(enc, e, n, Next(enc, e, n, st, chunks[0]), chunks[1..])
  }

  // What a context has between calls.
  predicate Settled(enc: bool, n: nat, st: Stream)
    requires n > 0
  {
    if enc then |st.pending| < n else |st.pending| <= n
  }

  lemma Idle(enc: bool, e: BlockCipher, n: nat, st: Stream)
    requires Enciphers(e, n) && |st.iv| == n && Settled(enc, n, st)
    ensures Output(enc, e, n, st, []) == [] && Next(enc, e, n, st, []) == st
  {
    assert st.pending + [] == st.pending;
    assert st.pending[..0] == [] && st.pending[0..] == st.pending;
  }

  // However the input is cut, the calls together do what one call does.
  lemma {:induction false} RunIsOneCall(enc: bool, e: BlockCipher, n: nat, st: Stream, chunks: seq<seq<bv8>>)
    requires Enciphers(e, n) && |st.iv| == n && Settled(enc, n, st)
    ensures RunOutput(enc, e, n, st, chunks) == Output(enc, e, n, st, Flatten(chunks))
    ensures RunState(enc, e, n, st, chunks) == Next(enc, e, n, st, Flatten(chunks))
    decreases |chunks|
  {
    hide Output;
    if chunks == [] {
      Idle(enc, e, n, st);
    } else {
      var next := Next(enc, e, n, st, chunks[0]);
      assert Settled(enc, n, next);
      hide Next;
      UpdateAppend(enc, e, n, st, chunks[0], Flatten(chunks[1..]));
      RunIsOneCall(enc, e, n, next, chunks[1..]);
    }
  }

  // ----- block by block -----

  function BlockOf(n: nat, s: seq<bv8>, i: nat): (r: seq<bv8>)
    requires n * i + n <= |s|
    ensures |r| == n
  {
    s[n * i..n * i + n]
  }

  // Section 6.2 of NIST SP 800-38A: every block is added to the ciphertext block before it, or to
  // the IV, and then enciphered; deciphering goes the other way.
  lemma {:induction false} CbcBlock(enc: bool, e: BlockCipher, n: nat, iv: seq<bv8>, s: seq<bv8>, i: nat)
    requires Enciphers(e, n) && |iv| == n && Whole(n, |s|) && n * i + n <= |s|
    requires i > 0 ==> n * (i - 1) + n <= |s|
    ensures var r := Cbc(enc, e, n, iv, s).0;
            BlockOf(n, r, i)
            == if enc then e(Xor(BlockOf(n, s, i), if i == 0 then iv else BlockOf(n, r, i - 1)))
               else Xor(e(BlockOf(n, s, i)), if i == 0 then iv else BlockOf(n, s, i - 1))
    decreases i
  {
    hide Xor;
    var r := Cbc(enc, e, n, iv, s).0;
    var y := One(enc, e, n, iv, s[..n]);
    var next := Chained(enc, s[..n], y);
    var t := Cbc(enc, e, n, next, s[n..]).0;
    assert r == y + t;
    if i == 0 {
      assert BlockOf(n, s, 0) == s[..n] && BlockOf(n, r, 0) == y;
    } else {
      NextBlock(n, s[..n], s[n..], i);
      NextBlock(n, y, t, i);
      assert s == s[..n] + s[n..];
      if i == 1 {
        assert BlockOf(n, s, 0) == s[..n] && BlockOf(n, r, 0) == y;
      } else {
        Times(n, i);
        NextBlock(n, s[..n], s[n..], i - 1);
        NextBlock(n, y, t, i - 1);
      }
      Times(n, i);
      CbcBlock(enc, e, n, next, s[n..], i - 1);
    }
  }

  lemma Times(n: nat, i: nat)
    requires i > 0
    ensures n * (i - 1) + n == n * i
  {}

  lemma NextBlock(n: nat, a: seq<bv8>, b: seq<bv8>, i: nat)
    requires |a| == n && i > 0 && n * i + n <= n + |b|
    ensures n * (i - 1) + n <= |b| && BlockOf(n, a + b, i) == BlockOf(n, b, i - 1)
  {
    Times(n, i);
  }
}
