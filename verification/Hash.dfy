// The shared shape of share/crypto/sha256.c, sha1.c and md5.c: a context that buffers a partial
// 64-byte block between calls and counts bytes in two 32-bit words, over any compression step.
module Hash {
  import opened Bytes
  import opened Memory
  import opened Numbers

  type Chunk = b: seq<bv8> | |b| == 64 witness seq(64, _ => 0)
  type Words = seq<bv32>
  type Process = (Words, Chunk) -> Words

  // ----- the buffered form -----

  // The state after every whole block of s has been compressed, and what is left of s.
  function Feed(p: Process, st: Words, s: seq<bv8>): (r: (Words, seq<bv8>))
    ensures |r.1| == Mod6(|s|)
    decreases |s|
  {
    if |s| < 64 then (st, s) else Feed(p, p(st, s[..64]), s[64..])
  }

  lemma FeedShort(p: Process, st: Words, s: seq<bv8>)
    requires |s| < 64
    ensures Feed(p, st, s) == (st, s)
  {}

  // Feeding in two goes is feeding everything at once.
  lemma {:induction false} FeedTwice(p: Process, st: Words, a: seq<bv8>, b: seq<bv8>)
    ensures Feed(p, Feed(p, st, a).0, Feed(p, st, a).1 + b) == Feed(p, st, a + b)
    decreases |a|
  {
    if |a| >= 64 {
      assert (a + b)[..64] == a[..64] && (a + b)[64..] == a[64..] + b;
      FeedTwice(p, p(st, a[..64]), a[64..], b);
    }
  }

  // Pending bytes and new ones that together make up the first block.
  lemma FirstBlock(p: Process, st: Words, pending: seq<bv8>, input: seq<bv8>, block: seq<bv8>)
    requires 0 < |pending| < 64 && |pending| + |input| >= 64 && |block| == 64
    requires block[..|pending|] == pending && block[|pending|..] == input[..64 - |pending|]
    ensures Feed(p, st, pending + input) == Feed(p, p(st, block), input[64 - |pending|..])
  {
    var all := pending + input;
    assert all[..64] == block;
    assert all[64..] == input[64 - |pending|..];
  }

  // The residues of the counters: the place in a block, a 32-bit word, a 64-bit word.
  function Mod6(n: nat): (r: nat)
    ensures r < 64
  {
    n % 64
  }

  function Mod32(n: nat): (r: nat)
    ensures r < 0x1_0000_0000
  {
    n % 0x1_0000_0000
  }

  function Mod64(n: nat): (r: nat)
    ensures r < 0x1_0000_0000_0000_0000
  {
    n % 0x1_0000_0000_0000_0000
  }

  lemma Mod6Plus(k: nat, t: nat)
    ensures Mod6(64 * k + t) == Mod6(t)
  {}

  // The place in a block survives the wrap of the 32-bit counter.
  lemma CountMod(t: nat, n: nat)
    ensures Mod6(Mod32(t + n)) == Mod6(Mod6(t) + n)
  {
    hide Mod6;
    var q, u := (t + n) / 0x1_0000_0000, t / 64;
    Mod6Plus(0x4000000 * q, Mod32(t + n));
    Mod6Is(t);
    Mod6Plus(u, Mod6(t) + n);
  }

  lemma Mod6Is(t: nat)
    ensures t == 64 * (t / 64) + Mod6(t)
  {}

  // ----- padding -----

  // A 64-bit integer in big-endian or in little-endian order.
  function U32(n: nat, big: bool): (r: seq<bv8>)
    requires n < 0x1_0000_0000
    ensures |r| == 4
  {
    var b0, b1, b2, b3 := (n % 0x100) as bv8, (n / 0x100 % 0x100) as bv8, (n / 0x10000 % 0x100) as bv8,
      (n / 0x1000000) as bv8;
    if big then [b3, b2, b1, b0] else [b0, b1, b2, b3]
  }

  function U64(n: nat, big: bool): (r: seq<bv8>)
    requires n < 0x1_0000_0000_0000_0000
    ensures |r| == 8
  {
    if big then U32(n / 0x1_0000_0000, true) + U32(n % 0x1_0000_0000, true)
    else U32(n % 0x1_0000_0000, false) + U32(n / 0x1_0000_0000, false)
  }

  lemma U32Reads(n: nat)
    requires n < 0x1_0000_0000
    ensures BigEndian(U32(n, true)) == n && LittleEndian(U32(n, false)) == n
  {
    hide BigEndian, LittleEndian, Digit;
    var b, l := U32(n, true), U32(n, false);
    Digits(n);
    DigitOf(n / 0x1000000);
    DigitOf(n / 0x10000 % 0x100);
    DigitOf(n / 0x100 % 0x100);
    DigitOf(n % 0x100);
    BigEndian4(b[0], b[1], b[2], b[3]);
    LittleEndian4(l[0], l[1], l[2], l[3]);
    assert b == [b[0], b[1], b[2], b[3]] && l == [l[0], l[1], l[2], l[3]];
  }

  lemma U64Reads(n: nat)
    requires n < 0x1_0000_0000_0000_0000
    ensures BigEndian(U64(n, true)) == n && LittleEndian(U64(n, false)) == n
  {
    hide BigEndian, LittleEndian, U32, Power256;
    var hi, lo := n / 0x1_0000_0000, n % 0x1_0000_0000;
    U32Reads(hi);
    U32Reads(lo);
    Powers();
    BigEndianAppend(U32(hi, true), U32(lo, true));
    LittleEndianAppend(U32(lo, false), U32(hi, false));
  }

  // The eight bytes as a number, in the byte order of the hash.
  function Reading(s: seq<bv8>, big: bool): nat
  {
    if big then BigEndian(s) else LittleEndian(s)
  }

  // One bit 1, then zeros up to 56 bytes modulo 64.
  function Filler(n: nat): (r: seq<bv8>)
    ensures 1 <= |r| <= 64 && (n + |r|) % 64 == 56
  {
    var last := Mod6(n);
    [0x80] + Zeros((if last < 56 then 56 - last else 120 - last) - 1)
  }

  // The message of the standards: filler and the 64-bit count of bits.
  function Padded(m: seq<bv8>, bits: nat, big: bool): (r: seq<bv8>)
    requires bits < 0x1_0000_0000_0000_0000
    ensures |r| % 64 == 0
  {
    hide U64, Filler;
    assert (|m| + |Filler(|m|)| + 8) % 64 == 0;
    m + Filler(|m|) + U64(bits, big)
  }

  // Main result: the padded message is the message, the byte 0x80, zeros, and eight bytes that
  // read as its number of bits in the byte order of the hash; no shorter one fills whole blocks.
  lemma PaddedIs(m: seq<bv8>, big: bool)
    requires 8 * |m| < 0x1_0000_0000_0000_0000
    ensures var r := Padded(m, 8 * |m|, big);
            && |m| + 9 <= |r| < |m| + 9 + 64 && r[..|m|] == m && r[|m|] == 0x80
            && (forall i :: |m| < i < |r| - 8 ==> r[i] == 0)
            && Reading(r[|r| - 8..], big) == 8 * |m|
  {
    hide U64, Reading, Filler;
    var r, f, t := Padded(m, 8 * |m|, big), Filler(|m|), U64(8 * |m|, big);
    FillerReads(|m|);
    assert r == m + f + t;
    assert r[..|m|] == m && r[|m|..|r| - 8] == f && r[|r| - 8..] == t;
    BitsRead(8 * |m|, big);
    forall i | |m| <= i < |r| - 8 ensures r[i] == f[i - |m|] {}
  }

  lemma FillerReads(n: nat)
    ensures Filler(n)[0] == 0x80 && forall i :: 0 < i < |Filler(n)| ==> Filler(n)[i] == 0
  {}

  lemma BitsRead(n: nat, big: bool)
    requires n < 0x1_0000_0000_0000_0000
    ensures Reading(U64(n, big), big) == n
  {
    hide BigEndian, LittleEndian, U64;
    U64Reads(n);
  }

  // The state after the first k blocks.
  function Blocks(p: Process, st: Words, s: seq<bv8>, k: nat): Words
    requires 64 * k <= |s|
  {
    if k == 0 then st else p(Blocks(p, st, s, k - 1), s[64 * k - 64..64 * k])
  }

  lemma {:induction false} FeedFrom(p: Process, st: Words, s: seq<bv8>, k: nat)
    requires 64 * k <= |s|
    ensures Feed(p, Blocks(p, st, s, k), s[64 * k..]) == Feed(p, st, s)
  {
    if k == 0 {
      assert s[0..] == s;
    } else {
      var t := s[64 * k - 64..];
      FeedFrom(p, st, s, k - 1);
      assert t[..64] == s[64 * k - 64..64 * k] && t[64..] == s[64 * k..];
    }
  }

  // The digest of n blocks is the last of the states the blocks lead through, in their order.
  lemma DigestByBlocks(p: Process, st: Words, s: seq<bv8>, n: nat)
    requires |s| == 64 * n
    ensures Digest(p, st, s) == Blocks(p, st, s, n)
  {
    hide Feed;
    FeedFrom(p, st, s, n);
    assert s[64 * n..] == [];
    FeedShort(p, Blocks(p, st, s, n), []);
  }

  // The compression of a whole number of blocks.
  function Digest(p: Process, st: Words, s: seq<bv8>): Words
    requires |s| % 64 == 0
  {
    Feed(p, st, s).0
  }

  // ----- the context -----

  class HashContext {
    const process: Process
    const big: bool
    var total0: nat
    var total1: nat
    var state: Words
    const buffer: array<bv8>

    ghost predicate Valid()
      reads this
    {
      buffer.Length == 64 && total0 < 0x1_0000_0000 && total1 < 0x1_0000_0000
    }

    // The bytes counted so far, modulo 2^64.
    ghost function Count(): nat
      reads this
    {
      total1 * 0x1_0000_0000 + total0
    }

    // The bytes received since the last compressed block.
    ghost function Pending(): seq<bv8>
      requires Valid()
      reads this, buffer
    {
      buffer[..Mod6(total0)]
    }

    constructor Starts(process: Process, big: bool, init: Words)
      ensures this.process == process && this.big == big
      ensures Valid() && state == init && Count() == 0 && Pending() == [] && fresh(buffer)
    {
      this.process, this.big := process, big;
      total0, total1, state := 0, 0, init;
      buffer := new bv8[64](_ => 0);
    }

    method Update(input: seq<bv8>)
      requires Valid()
      modifies this, buffer
      ensures Valid()
      ensures (state, Pending()) == Feed(process, old(state), old(Pending()) + input)
      ensures Count() == Mod64(old(Count()) + Mod32(|input|))
    {
      hide Feed, Mod6, Mod32, Mod64;
      if |input| == 0 {
        AddNone(total0, total1);
        assert Pending() + input == Pending();
        FeedShort(process, state, Pending());
        return;
      }
      var left := Mod6(total0);
      CountMod(total0, |input|);
      Tally(|input|);
      Absorb(left, input);
    }

    // Whole blocks are compressed, the rest is kept.
    method Absorb(left: nat, input: seq<bv8>)
      requires buffer.Length == 64 && left < 64
      modifies `state, buffer
      ensures (state, buffer[..Mod6(left + |input|)]) == Feed(process, old(state), old(buffer[..left]) + input)
    {
      hide Feed, Mod6;
      ghost var all := buffer[..left] + input;
      var rest, left' := Complete(left, input);
      rest := Compress(rest);
      ghost var head := buffer[..left'];
      if |rest| > 0 {
        StoreAt(buffer, left', rest);
      }
      assert buffer[..left' + |rest|] == head + rest;
      FeedShort(process, state, head + rest);
      if left' == 0 {
        assert head + rest == rest;
      } else {
        assert head + rest == all;
      }
    }

    // The first block, when the pending bytes and the input fill one.
    method Complete(left: nat, input: seq<bv8>) returns (rest: seq<bv8>, left': nat)
      requires buffer.Length == 64 && left < 64
      modifies `state, buffer
      ensures if left != 0 && |input| < 64 - left
              then left' == left && rest == input && state == old(state) && buffer[..] == old(buffer[..])
              else left' == 0 && Feed(process, state, rest) == Feed(process, old(state), old(buffer[..left]) + input)
    {
      rest, left' := input, left;
      ghost var pending := buffer[..left];
      var fill := 64 - left;
      if left != 0 && |rest| >= fill {
        StoreAt(buffer, left, rest[..fill]);
        FirstBlock(process, state, pending, input, buffer[..]);
        state := process(state, buffer[..]);
        rest := rest[fill..];
        left' := 0;
      } else if left == 0 {
        assert pending + input == input;
      }
    }

    // The loop over whole blocks.
    method Compress(input: seq<bv8>) returns (rest: seq<bv8>)
      modifies `state
      ensures |rest| < 64 && Feed(process, state, rest) == Feed(process, old(state), input)
      ensures |input| < 64 ==> rest == input && state == old(state)
    {
      rest := input;
      while |rest| >= 64
        invariant Feed(process, state, rest) == Feed(process, old(state), input)
        invariant |input| < 64 ==> rest == input && state == old(state)
        decreases |rest|
      {
        state := process(state, rest[..64]);
        rest := rest[64..];
      }
    }

    // The two-word byte counter of the updates.
    method Tally(ilen: nat)
      requires Valid()
      modifies `total0, `total1
      ensures Valid()
      ensures total0 == Mod32(old(total0) + ilen)
      ensures Count() == Mod64(old(Count()) + Mod32(ilen))
    {
      hide Mod32, Mod64;
      var low := Mod32(ilen);
      Carry(total0, total1, ilen);
      total0 := Mod32(total0 + low);
      if total0 < low {
        total1 := Mod32(total1 + 1);
      }
    }

    // The padding, then the bit count, through the update itself.
    method Finish() returns (digest: Words)
      requires Valid()
      modifies this, buffer
      ensures Valid() && Pending() == [] && digest == state
      ensures digest == FinishDigest(process, big, old(state), old(Pending()), old(Count()))
    {
      hide Feed, U64, Filler, Mod6, Mod32, Mod64;
      ghost var st, pending := state, Pending();
      var last := Mod6(total0);
      var padn := if last < 56 then 56 - last else 120 - last;
      var msglen := BitCount(total0, total1, big);
      var filler := [0x80] + Zeros(padn - 1);
      FillerIs(total0, total1);
      Update(filler);
      FeedTwice(process, st, pending + filler, msglen);
      Update(msglen);
      NothingLeft(last);
      assert |pending + filler + msglen| == last + padn + 8;
      digest := state;
    }
  }

  // The carry is recognized by the low word having come out below what was added to it.
  lemma Carry(t0: nat, t1: nat, n: nat)
    requires t0 < 0x1_0000_0000 && t1 < 0x1_0000_0000
    ensures var low, w0 := Mod32(n), Mod32(t0 + Mod32(n));
            var w1 := if w0 < low then Mod32(t1 + 1) else t1;
            && w0 == Mod32(t0 + n)
            && w1 * 0x1_0000_0000 + w0 == Mod64(t1 * 0x1_0000_0000 + t0 + low)
  {
    Mod32Add(t0, n);
    if t0 + Mod32(n) >= 0x1_0000_0000 && t1 + 1 == 0x1_0000_0000 {
      assert t1 * 0x1_0000_0000 + t0 + Mod32(n) < 0x2_0000_0000_0000_0000;
    }
  }

  lemma AddNone(t0: nat, t1: nat)
    requires t0 < 0x1_0000_0000 && t1 < 0x1_0000_0000
    ensures t1 * 0x1_0000_0000 + t0 == Mod64(t1 * 0x1_0000_0000 + t0 + Mod32(0))
  {}

  lemma Mod32Add(t: nat, n: nat)
    ensures Mod32(t + Mod32(n)) == Mod32(t + n)
  {
    var q := n / 0x1_0000_0000;
    assert t + n == t + Mod32(n) + 0x1_0000_0000 * q;
  }

  // The eight bytes of msglen: high and low halves of the byte count times eight.
  function BitCount(t0: nat, t1: nat, big: bool): (r: seq<bv8>)
    requires t0 < 0x1_0000_0000 && t1 < 0x1_0000_0000
    ensures r == U64(Mod64(8 * (t1 * 0x1_0000_0000 + t0)), big)
    ensures Reading(r, big) == Mod64(8 * (t1 * 0x1_0000_0000 + t0))
  {
    var high := t0 / 0x2000_0000 + t1 * 8 % 0x1_0000_0000;
    var low := t0 * 8 % 0x1_0000_0000;
    CountBits(t0, t1);
    BitsRead(Mod64(8 * (t1 * 0x1_0000_0000 + t0)), big);
    if big then U32(high, true) + U32(low, true) else U32(low, false) + U32(high, false)
  }

  lemma CountBits(t0: nat, t1: nat)
    requires t0 < 0x1_0000_0000 && t1 < 0x1_0000_0000
    ensures var bits := Mod64(8 * (t1 * 0x1_0000_0000 + t0));
            && bits / 0x1_0000_0000 == t0 / 0x2000_0000 + t1 * 8 % 0x1_0000_0000
            && bits % 0x1_0000_0000 == t0 * 8 % 0x1_0000_0000
            && bits / 0x1_0000_0000 < 0x1_0000_0000
  {
    var q0, r0 := t0 / 0x2000_0000, t0 % 0x2000_0000;
    var q1, r1 := t1 / 0x2000_0000, t1 % 0x2000_0000;
    Eightfold(t0, q0, r0);
    Eightfold(t1, q1, r1);
    WideMod(q1, 8 * r1 + q0, 8 * r0);
    assert 8 * (t1 * 0x1_0000_0000 + t0)
           == 0x1_0000_0000_0000_0000 * q1 + 0x1_0000_0000 * (8 * r1 + q0) + 8 * r0;
  }

  lemma Eightfold(t: nat, q: nat, r: nat)
    requires t == 0x2000_0000 * q + r && r < 0x2000_0000
    ensures t * 8 % 0x1_0000_0000 == 8 * r
  {
    assert t * 8 == 0x1_0000_0000 * q + 8 * r;
  }

  lemma WideMod(q: nat, a: nat, b: nat)
    requires a < 0x1_0000_0000 && b < 0x1_0000_0000
    ensures var bits := Mod64(0x1_0000_0000_0000_0000 * q + 0x1_0000_0000 * a + b);
            bits == 0x1_0000_0000 * a + b && bits / 0x1_0000_0000 == a && bits % 0x1_0000_0000 == b
  {
    hide Mod64;
    Mod64Plus(q, 0x1_0000_0000 * a + b);
    Halves(a, b);
  }

  lemma Mod64Plus(q: nat, r: nat)
    requires r < 0x1_0000_0000_0000_0000
    ensures Mod64(0x1_0000_0000_0000_0000 * q + r) == r
  {}

  lemma Halves(a: nat, b: nat)
    requires b < 0x1_0000_0000
    ensures (0x1_0000_0000 * a + b) / 0x1_0000_0000 == a && (0x1_0000_0000 * a + b) % 0x1_0000_0000 == b
  {}

  lemma FillerMod(n: nat, m: nat)
    requires Mod6(n) == Mod6(m)
    ensures Filler(n) == Filler(m)
  {}

  // The filler depends on the count modulo 64 only, which the low word tells.
  lemma FillerIs(t0: nat, t1: nat)
    ensures var last := Mod6(t0);
            Filler(t1 * 0x1_0000_0000 + t0)
            == [0x80] + Zeros((if last < 56 then 56 - last else 120 - last) - 1)
  {
    Mod6Plus(t1 * 0x400_0000, t0);
    assert t1 * 0x1_0000_0000 == 64 * (t1 * 0x400_0000);
    FillerMod(t1 * 0x1_0000_0000 + t0, t0);
  }

  // The filler and the count end on a block boundary.
  lemma NothingLeft(last: nat)
    requires last < 64
    ensures Mod6(last + (if last < 56 then 56 - last else 120 - last) + 8) == 0
  {}

  // What finish leaves, from what the updates left.
  function FinishDigest(p: Process, big: bool, st: Words, pending: seq<bv8>, count: nat): Words
  {
    Feed(p, st, pending + Filler(count) + U64(Mod64(8 * count), big)).0
  }

  // ----- runs of updates -----

  // The state, the pending bytes and the count after a run.
  function RunFeed(p: Process, st: Words, pending: seq<bv8>, chunks: seq<seq<bv8>>): (Words, seq<bv8>)
    decreases |chunks|
  {
    if chunks == [] then (st, pending)
    else
      var (st', pending') := Feed(p, st, pending + chunks[0]);
      RunFeed(p, st', pending', chunks[1..])
  }

  function RunCount(count: nat, chunks: seq<seq<bv8>>): nat
    decreases |chunks|
  {
    if chunks == [] then count
    else RunCount(Mod64(count + Mod32(|chunks[0]|)), chunks[1..])
  }

  // However the input is cut, the same blocks are compressed.
  lemma {:induction false} RunIsOneFeed(p: Process, st: Words, s: seq<bv8>, chunks: seq<seq<bv8>>)
    ensures RunFeed(p, Feed(p, st, s).0, Feed(p, st, s).1, chunks) == Feed(p, st, s + Flatten(chunks))
    decreases |chunks|
  {
    hide Feed;
    if chunks == [] {
      assert s + [] == s;
    } else {
      FeedTwice(p, st, s, chunks[0]);
      RunIsOneFeed(p, st, s + chunks[0], chunks[1..]);
      assert s + Flatten(chunks) == s + chunks[0] + Flatten(chunks[1..]);
    }
  }

  // Every call counts its bytes modulo 2^32.
  predicate Small(chunks: seq<seq<bv8>>)
  {
    forall i :: 0 <= i < |chunks| ==> |chunks[i]| < 0x1_0000_0000
  }

  lemma ModAtMost(n: nat)
    ensures Mod32(n) <= n
    ensures Mod32(n) == n <==> n < 0x1_0000_0000
  {}

  lemma Mod64Small(n: nat)
    requires n < 0x1_0000_0000_0000_0000
    ensures Mod64(n) == n
  {}

  // The count is the length of the message exactly when no call was given 2^32 bytes or more.
  lemma {:induction false} CountExact(count: nat, chunks: seq<seq<bv8>>)
    requires count + |Flatten(chunks)| < 0x1_0000_0000_0000_0000
    ensures RunCount(count, chunks) <= count + |Flatten(chunks)|
    ensures RunCount(count, chunks) == count + |Flatten(chunks)| <==> Small(chunks)
    decreases |chunks|
  {
    hide Mod32, Mod64;
    if chunks != [] {
      var n := Mod32(|chunks[0]|);
      ModAtMost(|chunks[0]|);
      Mod64Small(count + n);
      CountExact(count + n, chunks[1..]);
      assert Small(chunks) <==> |chunks[0]| < 0x1_0000_0000 && Small(chunks[1..]);
    }
  }

  // Main result: any run of updates and a finish compress the padded message of the standard,
  // with the right bit count, when the message is shorter than 2^61 bytes and no single call
  // reaches 2^32.
  lemma StreamDigest(p: Process, big: bool, init: Words, chunks: seq<seq<bv8>>)
    requires |Flatten(chunks)| < 0x2000_0000_0000_0000 && Small(chunks)
    ensures var m := Flatten(chunks);
            var (st, pending) := RunFeed(p, init, [], chunks);
            FinishDigest(p, big, st, pending, RunCount(0, chunks)) == Digest(p, init, Padded(m, 8 * |m|, big))
  {
    hide Feed, U64, Filler, FinishDigest, Padded, Mod64, Mod32, Mod6;
    var m := Flatten(chunks);
    CountExact(0, chunks);
    NothingFed(p, init);
    RunIsOneFeed(p, init, [], chunks);
    assert [] + m == m;
    FinishIsDigest(p, big, init, m);
  }

  lemma FinishIsDigest(p: Process, big: bool, init: Words, m: seq<bv8>)
    requires |m| < 0x2000_0000_0000_0000
    ensures FinishDigest(p, big, Feed(p, init, m).0, Feed(p, init, m).1, |m|)
            == Digest(p, init, Padded(m, 8 * |m|, big))
  {
    hide Feed, U64, Filler, Mod64, Mod32, Mod6;
    Mod64Small(8 * |m|);
    var tail := Filler(|m|) + U64(8 * |m|, big);
    var pending := Feed(p, init, m).1;
    FeedTwice(p, init, m, tail);
    assert pending + Filler(|m|) + U64(8 * |m|, big) == pending + tail;
    assert Padded(m, 8 * |m|, big) == m + tail;
  }

  lemma NothingFed(p: Process, st: Words)
    ensures Feed(p, st, []) == (st, [])
  {}

  // The bit count of the padding is wrong as soon as one call is given 2^32 bytes or more.
  lemma LongCallMiscounts(chunks: seq<seq<bv8>>)
    requires |Flatten(chunks)| < 0x2000_0000_0000_0000 && !Small(chunks)
    ensures Mod64(8 * RunCount(0, chunks)) != 8 * |Flatten(chunks)|
  {
    hide Mod64;
    CountExact(0, chunks);
    Mod64Small(8 * RunCount(0, chunks));
  }

  // One call of everything: the digest of the input, when it is shorter than 2^32 bytes.
  method OneShot(process: Process, big: bool, init: Words, input: seq<bv8>) returns (digest: Words)
    ensures |input| < 0x1_0000_0000 ==> digest == Digest(process, init, Padded(input, 8 * |input|, big))
  {
    hide Feed, U64, Filler, FinishDigest, Padded, Digest, Mod64, Mod32, Mod6;
    var ctx := new HashContext.Starts(process, big, init);
    ctx.Update(input);
    assert [] + input == input;
    digest := ctx.Finish();
    if |input| < 0x1_0000_0000 {
      ModAtMost(|input|);
      Mod64Small(|input|);
      FinishIsDigest(process, big, init, input);
    }
  }

  // Main result: a context driven through any cut of the message gives its digest.
  method DigestInPieces(process: Process, big: bool, init: Words, chunks: seq<seq<bv8>>) returns (digest: Words)
    ensures |Flatten(chunks)| < 0x2000_0000_0000_0000 && Small(chunks) ==>
              digest == Digest(process, init, Padded(Flatten(chunks), 8 * |Flatten(chunks)|, big))
  {
    hide Feed, U64, Filler, FinishDigest, Padded, Digest, Mod64, Mod32, Mod6;
    var ctx := new HashContext.Starts(process, big, init);
    var rest := chunks;
    while rest != []
      invariant ctx.Valid() && fresh(ctx) && fresh(ctx.buffer) && ctx.process == process && ctx.big == big
      invariant RunFeed(process, init, [], chunks) == RunFeed(process, ctx.state, ctx.Pending(), rest)
      invariant RunCount(0, chunks) == RunCount(ctx.Count(), rest)
      decreases |rest|
    {
      ctx.Update(rest[0]);
      rest := rest[1..];
    }
    digest := ctx.Finish();
    if |Flatten(chunks)| < 0x2000_0000_0000_0000 && Small(chunks) {
      StreamDigest(process, big, init, chunks);
    }
  }
}
