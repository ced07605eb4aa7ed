// The padding schemes of share/crypto/cipher.c: how a last block is filled up, and how the
// filling is recognized without branching on the data.
module Padding {
  import opened Bytes

  datatype Scheme = Pkcs7 | OneAndZeros | ZerosAndLen | TrailingZeros

  // The largest block of any cipher here.
  const MAX_BLOCK := 16

  const INVALID_PADDING := -0x6200

  function ByteOf(l: nat): bv8
    requires l <= MAX_BLOCK
  {
    l as bv8
  }

  function Count(b: bv8): (l: nat)
    ensures l < 256
  {
    b as nat
  }

  lemma CountByteOf(l: nat)
    requires l <= MAX_BLOCK
    ensures Count(ByteOf(l)) == l
  {
    match l {
      case 0 => case 1 => case 2 => case 3 => case 4 => case 5 => case 6 => case 7 =>
      case 8 => case 9 => case 10 => case 11 => case 12 => case 13 => case 14 => case 15 => case _ =>
    }
  }

  lemma ByteOfCount(b: bv8)
    ensures Count(b) <= MAX_BLOCK ==> ByteOf(Count(b)) == b
  {}

  // The filling of l bytes.
  function Filler(p: Scheme, l: nat): (r: seq<bv8>)
    requires 0 < l <= MAX_BLOCK
    ensures |r| == l
  {
    match p
    case Pkcs7 => seq(l, _ => ByteOf(l))
    case OneAndZeros => [0x80] + Zeros(l - 1)
    case ZerosAndLen => Zeros(l - 1) + [ByteOf(l)]
    case TrailingZeros => Zeros(l)
  }

  // A block of n bytes that starts with the data d.
  function PadTo(p: Scheme, n: nat, d: seq<bv8>): (r: seq<bv8>)
    requires |d| < n <= MAX_BLOCK
    ensures |r| == n
  {
    d + Filler(p, n - |d|)
  }

  predicate IsPadded(p: Scheme, block: seq<bv8>, k: nat)
    requires |block| <= MAX_BLOCK
  {
    k < |block| && block == PadTo(p, |block|, block[..k])
  }

  // What a padded block reads, past its data and at its end.
  lemma PadToAt(p: Scheme, n: nat, d: seq<bv8>)
    requires |d| < n <= MAX_BLOCK
    ensures var b := PadTo(p, n, d);
            && b[..|d|] == d
            && (p == Pkcs7 ==> forall i :: |d| <= i < n ==> b[i] == ByteOf(n - |d|))
            && (p == OneAndZeros ==> b[|d|] == 0x80 && forall i :: |d| < i < n ==> b[i] == 0)
            && (p == ZerosAndLen ==> b[n - 1] == ByteOf(n - |d|) && forall i :: |d| <= i < n - 1 ==> b[i] == 0)
            && (p == TrailingZeros ==> forall i :: |d| <= i < n ==> b[i] == 0)
  {
    hide ByteOf;
  }

  // The bytes that count the filling, as numbers.
  lemma PadToCounts(p: Scheme, n: nat, d: seq<bv8>)
    requires |d| < n <= MAX_BLOCK
    ensures var b := PadTo(p, n, d);
            && (p == Pkcs7 ==> forall i :: |d| <= i < n ==> b[i] as nat == n - |d|)
            && (p == ZerosAndLen ==> b[n - 1] as nat == n - |d|)
  {
    hide ByteOf;
    PadToAt(p, n, d);
    ByteOfReads(n - |d|);
  }

  lemma ByteOfReads(l: nat)
    requires l <= MAX_BLOCK
    ensures ByteOf(l) as nat == l
  {}

  // The three schemes that mark where the data ends can be undone in one way only.
  lemma PadToInjective(p: Scheme, n: nat, c: seq<bv8>, d: seq<bv8>)
    requires p != TrailingZeros && |c| < n <= MAX_BLOCK && |d| < n && PadTo(p, n, c) == PadTo(p, n, d)
    ensures c == d
  {
    hide PadTo, ByteOf, Count;
    PadToAt(p, n, c);
    PadToAt(p, n, d);
    CountByteOf(n - |c|);
    CountByteOf(n - |d|);
    var b := PadTo(p, n, c);
    if p == Pkcs7 {
      assert b[n - 1] == ByteOf(n - |c|);
    }
    assert |c| == |d|;
  }

  // ----- adding -----

  method AddPkcs(output: array<bv8>, dataLen: nat)
    requires dataLen < output.Length <= MAX_BLOCK
    modifies output
    ensures output[..] == PadTo(Pkcs7, output.Length, old(output[..dataLen]))
  {
    hide ByteOf;
    var paddingLen := output.Length - dataLen;
    var i := 0;
    while i < paddingLen
      invariant 0 <= i <= paddingLen
      invariant output[..dataLen] == old(output[..dataLen])
      invariant forall k :: dataLen <= k < dataLen + i ==> output[k] == ByteOf(paddingLen)
    {
      output[dataLen + i] := ByteOf(paddingLen);
      i := i + 1;
    }
  }

  method AddOneAndZeros(output: array<bv8>, dataLen: nat)
    requires dataLen < output.Length <= MAX_BLOCK
    modifies output
    ensures output[..] == PadTo(OneAndZeros, output.Length, old(output[..dataLen]))
  {
    var paddingLen := output.Length - dataLen;
    output[dataLen] := 0x80;
    var i := 1;
    while i < paddingLen
      invariant 1 <= i <= paddingLen
      invariant output[..dataLen] == old(output[..dataLen]) && output[dataLen] == 0x80
      invariant forall k :: dataLen < k < dataLen + i ==> output[k] == 0
    {
      output[dataLen + i] := 0;
      i := i + 1;
    }
  }

  method AddZerosAndLen(output: array<bv8>, dataLen: nat)
    requires dataLen < output.Length <= MAX_BLOCK
    modifies output
    ensures output[..] == PadTo(ZerosAndLen, output.Length, old(output[..dataLen]))
  {
    hide ByteOf;
    var paddingLen := output.Length - dataLen;
    var i := 1;
    while i < paddingLen
      invariant 1 <= i <= paddingLen
      invariant output[..dataLen] == old(output[..dataLen])
      invariant forall k :: dataLen <= k < dataLen + i - 1 ==> output[k] == 0
    {
      output[dataLen + i - 1] := 0;
      i := i + 1;
    }
    output[output.Length - 1] := ByteOf(paddingLen);
  }

  method AddZeros(output: array<bv8>, dataLen: nat)
    requires dataLen < output.Length <= MAX_BLOCK
    modifies output
    ensures output[..] == PadTo(TrailingZeros, output.Length, old(output[..dataLen]))
  {
    var i := dataLen;
    while i < output.Length
      invariant dataLen <= i <= output.Length
      invariant output[..dataLen] == old(output[..dataLen])
      invariant forall k :: dataLen <= k < i ==> output[k] == 0
    {
      output[i] := 0;
      i := i + 1;
    }
  }

  // ----- recognizing -----

  function Flag(c: bool): bv8 { if c then 1 else 0 }

  // A 64-bit size_t.
  function SizeT(x: int): int
  {
    if x < 0 then x + 0x1_0000_0000_0000_0000 else x
  }

  // What a wrong byte adds to bad, without a branch.
  function Wrong(v: bv8, c: bool): bv8
  {
    v * Flag(c)
  }

  function Or(a: bv8, b: bv8): bv8 { a | b }

  lemma OrIsZero(a: bv8, b: bv8)
    ensures Or(a, b) == 0 <==> a == 0 && b == 0
  {}

  lemma WrongIsZero(v: bv8, c: bool)
    ensures Wrong(v, c) == 0 <==> (c ==> v == 0)
  {}

  lemma FlagIsZero(c: bool)
    ensures Flag(c) == 0 <==> !c
  {}

  lemma XorIsZero(a: bv8, b: bv8)
    ensures XorByte(a, b) == 0 <==> a == b
  {}

  function Verdict(bad: bv8): int
  {
    if bad != 0 then INVALID_PADDING else 0
  }

  method GetPkcs(input: seq<bv8>) returns (ret: int, dataLen: int)
    requires 0 < |input| <= MAX_BLOCK
    ensures ret == 0 || ret == INVALID_PADDING
    ensures ret == 0 ==> 0 <= dataLen && IsPadded(Pkcs7, input, dataLen)
    ensures ret != 0 ==> forall k: nat :: !IsPadded(Pkcs7, input, k)
  {
    hide Or, Flag, Wrong, XorByte, ByteOf, Count;
    var n := |input|;
    var last := input[n - 1];
    var paddingLen := Count(last);
    dataLen := SizeT(n - paddingLen);
    var bad := Or(Flag(paddingLen > n), Flag(paddingLen == 0));
    OrIsZero(Flag(paddingLen > n), Flag(paddingLen == 0));
    FlagIsZero(paddingLen > n);
    FlagIsZero(paddingLen == 0);
    var padIdx := SizeT(n - paddingLen);
    var i := 0;
    while i < n
      invariant 0 <= i <= n
      invariant bad == 0 <==> 0 < paddingLen <= n && forall k :: padIdx <= k < i ==> input[k] == last
    {
      var x := Wrong(XorByte(input[i], last), i >= padIdx);
      OrIsZero(bad, x);
      WrongIsZero(XorByte(input[i], last), i >= padIdx);
      XorIsZero(input[i], last);
      bad := Or(bad, x);
      i := i + 1;
    }
    ret := Verdict(bad);
    PkcsIs(input);
  }

  lemma PkcsIs(input: seq<bv8>)
    requires 0 < |input| <= MAX_BLOCK
    ensures var n, l := |input|, Count(input[|input| - 1]);
            forall k: nat :: IsPadded(Pkcs7, input, k)
              <==> 0 < l <= n && k == n - l && forall i :: k <= i < n ==> input[i] == input[n - 1]
  {
    hide ByteOf, Count, PadTo;
    var n, l := |input|, Count(input[|input| - 1]);
    forall k: nat ensures IsPadded(Pkcs7, input, k)
              <==> 0 < l <= n && k == n - l && forall i :: k <= i < n ==> input[i] == input[n - 1]
    {
      if k < n {
        PadToAt(Pkcs7, n, input[..k]);
        CountByteOf(n - k);
        ByteOfCount(input[n - 1]);
        assert IsPadded(Pkcs7, input, k) ==> input[n - 1] == ByteOf(n - k);
        if l == n - k && forall i :: k <= i < n ==> input[i] == input[n - 1] {
          assert input == PadTo(Pkcs7, n, input[..k]);
        }
      }
    }
  }

  method GetZerosAndLen(input: seq<bv8>) returns (ret: int, dataLen: int)
    requires 0 < |input| <= MAX_BLOCK
    ensures ret == 0 || ret == INVALID_PADDING
    ensures ret == 0 ==> 0 <= dataLen && IsPadded(ZerosAndLen, input, dataLen)
    ensures ret != 0 ==> forall k: nat :: !IsPadded(ZerosAndLen, input, k)
  {
    hide Or, Flag, Wrong, ByteOf, Count;
    var n := |input|;
    var paddingLen := Count(input[n - 1]);
    dataLen := SizeT(n - paddingLen);
    var bad := Or(Flag(paddingLen > n), Flag(paddingLen == 0));
    OrIsZero(Flag(paddingLen > n), Flag(paddingLen == 0));
    FlagIsZero(paddingLen > n);
    FlagIsZero(paddingLen == 0);
    var padIdx := SizeT(n - paddingLen);
    var i := 0;
    while i < n - 1
      invariant 0 <= i <= n - 1
      invariant bad == 0 <==> 0 < paddingLen <= n && forall k :: padIdx <= k < i ==> input[k] == 0
    {
      var x := Wrong(input[i], i >= padIdx);
      OrIsZero(bad, x);
      WrongIsZero(input[i], i >= padIdx);
      bad := Or(bad, x);
      i := i + 1;
    }
    ret := Verdict(bad);
    ZerosAndLenIs(input);
  }

  lemma ZerosAndLenIs(input: seq<bv8>)
    requires 0 < |input| <= MAX_BLOCK
    ensures var n, l := |input|, Count(input[|input| - 1]);
            forall k: nat :: IsPadded(ZerosAndLen, input, k)
              <==> 0 < l <= n && k == n - l && forall i :: k <= i < n - 1 ==> input[i] == 0
  {
    hide ByteOf, Count, PadTo;
    var n, l := |input|, Count(input[|input| - 1]);
    forall k: nat ensures IsPadded(ZerosAndLen, input, k)
              <==> 0 < l <= n && k == n - l && forall i :: k <= i < n - 1 ==> input[i] == 0
    {
      if k < n {
        PadToAt(ZerosAndLen, n, input[..k]);
        CountByteOf(n - k);
        ByteOfCount(input[n - 1]);
        if l == n - k && forall i :: k <= i < n - 1 ==> input[i] == 0 {
          assert input == PadTo(ZerosAndLen, n, input[..k]);
        }
      }
    }
  }

  // The bits set in every byte of s, and those set in some byte.
  function Every(s: seq<bv8>): bv8
  {
    if s == [] then 0xff else And(Every(s[1..]), s[0])
  }

  function Some(s: seq<bv8>): bv8
  {
    if s == [] then 0 else Or(Some(s[1..]), s[0])
  }

  function And(a: bv8, b: bv8): bv8 { a & b }

  // None of the bits m is set in a.
  predicate Clear(a: bv8, m: bv8)
  {
    a & m == 0
  }

  // k is the place of the last byte that is not zero.
  predicate IsLast(s: seq<bv8>, k: nat)
  {
    k < |s| && s[k] != 0 && forall i :: k < i < |s| ==> s[i] == 0
  }

  // What the recognizer accepts: the last nonzero byte, at k, is even, no bit but the top one
  // is set in every byte, and the top bit is set in some byte.
  predicate OneAndZerosAccepts(s: seq<bv8>, k: nat)
  {
    IsLast(s, k) && Clear(s[k], 1) && Clear(Every(s), 0x7e) && !Clear(Some(s), 0x80)
  }

  // The accumulator, from the bytes seen and the low bit of the marker among them.
  function Bad(every: bv8, some: bv8, low: bv8): bv8
  {
    (every & 0x7e) | (0x80 & (0xff ^ some)) | (low & 1)
  }

  // One byte folded into the accumulator.
  function Fold(bad: bv8, x: bv8, same: bool): bv8
  {
    bad & ((x ^ 0x80) | Flag(same))
  }

  lemma BadStep(every: bv8, some: bv8, low: bv8, x: bv8, same: bool)
    ensures same ==> Fold(Bad(every, some, low), x, true) == Bad(And(every, x), Or(some, x), low)
    ensures !same ==> Fold(Bad(every, some, 1), x, false) == Bad(And(every, x), Or(some, x), x)
  {}

  lemma BadIsZero(every: bv8, some: bv8, low: bv8)
    ensures Bad(every, some, low) == 0 <==> Clear(every, 0x7e) && !Clear(some, 0x80) && Clear(low, 1)
  {}

  lemma BadStart()
    ensures Bad(0xff, 0, 1) == 0xff
  {}

  // The low bit is kept at 1 until the marker is met.
  function Low(marked: bool, s: seq<bv8>, k: int): bv8
  {
    if marked && 0 <= k < |s| then s[k] else 1
  }

  // From the last byte down, without a branch on the data.
  method GetOneAndZeros(input: seq<bv8>) returns (ret: int, dataLen: nat)
    ensures ret == 0 || ret == INVALID_PADDING
    ensures ret == 0 ==> OneAndZerosAccepts(input, dataLen)
    ensures ret != 0 ==> forall k: nat :: !OneAndZerosAccepts(input, k)
  {
    hide Bad, And, Or, Fold, Clear, OneAndZerosAccepts;
    var done, bad := false, 0xff;
    dataLen := 0;
    var i := |input|;
    BadStart();
    while i > 0
      invariant 0 <= i <= |input|
      invariant done <==> exists k :: i <= k < |input| && input[k] != 0
      invariant !done ==> dataLen == 0
      invariant done ==> i <= dataLen && IsLast(input, dataLen)
      invariant bad == Bad(Every(input[i..]), Some(input[i..]), Low(done, input, dataLen))
    {
      var x, prevDone := input[i - 1], done;
      assert input[i - 1..][0] == x && input[i - 1..][1..] == input[i..];
      BadStep(Every(input[i..]), Some(input[i..]), Low(done, input, dataLen), x, done || x == 0);
      done := done || x != 0;
      dataLen := dataLen + if done != prevDone then i - 1 else 0;
      bad := Fold(bad, x, done == prevDone);
      i := i - 1;
    }
    assert input[0..] == input;
    ret := Verdict(bad);
    AcceptedWhen(input, done, dataLen);
  }

  lemma AcceptedWhen(s: seq<bv8>, done: bool, k: nat)
    requires done <==> exists i :: 0 <= i < |s| && s[i] != 0
    requires done ==> IsLast(s, k)
    ensures if Bad(Every(s), Some(s), Low(done, s, k)) == 0 then OneAndZerosAccepts(s, k)
            else forall i: nat :: !OneAndZerosAccepts(s, i)
  {
    hide Bad, Clear, Every, Some;
    BadIsZero(Every(s), Some(s), Low(done, s, k));
    MarkerBits();
    forall i: nat | OneAndZerosAccepts(s, i) ensures done && i == k {
      assert s[i] != 0;
    }
  }

  lemma {:induction false} EveryAt(s: seq<bv8>, k: nat, m: bv8)
    requires k < |s|
    requires Clear(s[k], m)
    ensures Clear(Every(s), m)
  {
    hide And, Clear;
    AndMask(Every(s[1..]), s[0], m);
    if k > 0 {
      EveryAt(s[1..], k - 1, m);
    }
  }

  lemma {:induction false} SomeAt(s: seq<bv8>, k: nat, m: bv8)
    requires k < |s|
    requires !Clear(s[k], m)
    ensures !Clear(Some(s), m)
  {
    hide Or, Clear;
    OrMask(Some(s[1..]), s[0], m);
    if k > 0 {
      SomeAt(s[1..], k - 1, m);
    }
  }

  lemma AndMask(a: bv8, b: bv8, m: bv8)
    ensures Clear(a, m) || Clear(b, m) ==> Clear(And(a, b), m)
  {}

  lemma OrMask(a: bv8, b: bv8, m: bv8)
    ensures !Clear(a, m) || !Clear(b, m) ==> !Clear(Or(a, b), m)
  {}

  lemma MarkerBits()
    ensures Clear(0x80, 0x7e) && !Clear(0x80, 0x80) && Clear(0x80, 1) && Clear(0, 0x7e) && Clear(2, 1) && !Clear(1, 1)
  {}

  // Every padded block is accepted, and a block that is accepted is padded exactly when its
  // last nonzero byte is 0x80.
  lemma OneAndZerosIs(input: seq<bv8>, k: nat)
    requires |input| <= MAX_BLOCK
    ensures IsPadded(OneAndZeros, input, k) <==> OneAndZerosAccepts(input, k) && input[k] == 0x80
  {
    hide PadTo, Every, Some, Clear;
    var n := |input|;
    if k < n {
      PadToAt(OneAndZeros, n, input[..k]);
      if IsLast(input, k) && input[k] == 0x80 {
        assert input == PadTo(OneAndZeros, n, input[..k]);
        MarkerBits();
        EveryAt(input, k, 0x7e);
        SomeAt(input, k, 0x80);
      }
    }
  }

  // A block that is accepted although no data is padded to it.
  lemma OneAndZerosTooLenient()
    ensures var block := [0x80, 0, 0, 0, 0, 0, 0, 0, 0, 0, 0, 0, 0, 0, 0, 0x02];
            OneAndZerosAccepts(block, 15) && forall k: nat :: !IsPadded(OneAndZeros, block, k)
  {
    var block: seq<bv8> := [0x80, 0, 0, 0, 0, 0, 0, 0, 0, 0, 0, 0, 0, 0, 0, 0x02];
    hide Every, Some, Clear;
    MarkerBits();
    EveryAt(block, 1, 0x7e);
    SomeAt(block, 0, 0x80);
    forall k: nat ensures !IsPadded(OneAndZeros, block, k) {
      OneAndZerosIs(block, k);
      hide PadTo;
      if IsLast(block, k) {
        assert block[15] == 2;
        assert k == 15;
      }
    }
  }

  // This scheme marks nothing: trailing zeros of the data are lost with the filling.
  method GetZeros(input: seq<bv8>) returns (dataLen: int)
    ensures 0 <= dataLen <= |input|
    ensures forall k :: dataLen <= k < |input| ==> input[k] == 0
    ensures dataLen > 0 ==> input[dataLen - 1] != 0
  {
    var done := false;
    dataLen := 0;
    var i := |input|;
    while i > 0
      invariant 0 <= i <= |input|
      invariant !done ==> dataLen == 0 && forall k :: i <= k < |input| ==> input[k] == 0
      invariant done ==> i < dataLen <= |input| && input[dataLen - 1] != 0
      invariant done ==> forall k :: dataLen <= k < |input| ==> input[k] == 0
    {
      var prevDone := done;
      done := done || input[i - 1] != 0;
      dataLen := dataLen + if done != prevDone then i else 0;
      i := i - 1;
    }
  }
}
