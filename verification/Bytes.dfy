// Byte strings, blocks and integer encodings shared by the ciphers, hashes and framings.
module Bytes {
  type Block = b: seq<bv8> | |b| == 16 witness seq(16, _ => 0)

  function Zeros(n: nat): (z: seq<bv8>)
    ensures |z| == n && forall i :: 0 <= i < n ==> z[i] == 0
  {
    seq(n, _ => 0)
  }

  function XorByte(a: bv8, b: bv8): bv8
  {
    a ^ b
  }

  // Bytewise exclusive or of two strings of the same length.
  function Xor(a: seq<bv8>, b: seq<bv8>): (r: seq<bv8>)
    requires |a| == |b|
    ensures |r| == |a|
    ensures forall i :: 0 <= i < |a| ==> r[i] == XorByte(a[i], b[i])
  {
    seq(|a|, i requires 0 <= i < |a| => XorByte(a[i], b[i]))
  }

  // Adding the same string twice changes nothing.
  lemma XorTwice(a: seq<bv8>, k: seq<bv8>)
    requires |a| == |k|
    ensures Xor(Xor(a, k), k) == a
  {
    hide XorByte;
    forall i | 0 <= i < |a| ensures XorByte(XorByte(a[i], k[i]), k[i]) == a[i] {
      ByteTwice(a[i], k[i]);
    }
  }

  lemma XorCommutes(a: seq<bv8>, b: seq<bv8>)
    requires |a| == |b|
    ensures Xor(a, b) == Xor(b, a)
  {}

  lemma ByteTwice(a: bv8, k: bv8)
    ensures XorByte(XorByte(a, k), k) == a
  {}

  // The data of a run of calls.
  function Flatten(chunks: seq<seq<bv8>>): seq<bv8>
  {
    if chunks == [] then [] else chunks[0] + Flatten(chunks[1..])
  }

  // A cipher on blocks of n bytes, 16 for AES and 8 for DES.
  type BlockCipher = seq<bv8> -> seq<bv8>

  ghost predicate Enciphers(e: BlockCipher, n: nat)
  {
    (n == 8 || n == 16) && forall b :: |b| == n ==> |e(b)| == n
  }
}
