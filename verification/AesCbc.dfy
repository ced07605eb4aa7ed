// AES in the CBC mode of the cipher layer: the two cores of share/crypto together.
module AesCbc {
  import opened Bytes
  import opened CbcSpec
  import opened Padding
  import opened CipherLayer
  import AesSpec
  import Aes

  predicate KeySize(n: nat) { n == 16 || n == 24 || n == 32 }

  // The block function under a key, and the one of decryption.
  ghost function Enc(key: seq<bv8>): (e: BlockCipher)
    requires KeySize(|key|)
    ensures Enciphers(e, 16)
  {
    b => if |b| == 16 then Encrypted(key, b) else b
  }

  ghost function Dec(key: seq<bv8>): (d: BlockCipher)
    requires KeySize(|key|)
    ensures Enciphers(d, 16)
  {
    b => if |b| == 16 then Decrypted(key, b) else b
  }

  function Encrypted(key: seq<bv8>, b: Block): Block
    requires KeySize(|key|)
  {
    AesSpec.Cipher(Aes.KeySchedule(key, |key| / 4), b)
  }

  function Decrypted(key: seq<bv8>, b: Block): Block
    requires KeySize(|key|)
  {
    AesSpec.EqInvCipher(AesSpec.DecSchedule(Aes.KeySchedule(key, |key| / 4)), b)
  }

  lemma DecryptedEncrypted(key: seq<bv8>, b: Block)
    requires KeySize(|key|)
    ensures Decrypted(key, Encrypted(key, b)) == b
  {
    hide Aes.KeySchedule, AesSpec.Cipher, AesSpec.EqInvCipher, AesSpec.DecSchedule;
    Aes.DecryptUndoesEncrypt(key, 8 * |key|, b);
  }

  lemma DecInvertsEnc(key: seq<bv8>)
    requires KeySize(|key|)
    ensures Inverse(Dec(key), Enc(key), 16)
  {
    hide Encrypted, Decrypted;
    forall b: seq<bv8> | |b| == 16 ensures Dec(key)(Enc(key)(b)) == b {
      DecryptedEncrypted(key, b);
    }
  }

  // Main result: for every key of the three lengths and every IV, a message streamed through
  // AES-CBC encryption in any cut and back through decryption in any other comes out whole. (What
  // is pending before finish is always less than a block.)
  lemma MessageReturns(key: seq<bv8>, e: BlockCipher, d: BlockCipher, iv: seq<bv8>, p: Scheme, sent: seq<seq<bv8>>,
                       received: seq<seq<bv8>>)
    requires KeySize(|key|) && e == Enc(key) && d == Dec(key) && |iv| == 16 && p != TrailingZeros
    requires var st := RunState(true, e, 16, Stream(iv, []), sent);
             |st.pending| < 16 ==>
               Flatten(received) == RunOutput(true, e, 16, Stream(iv, []), sent) + LastBlock(e, 16, p, st)
    ensures var st := RunState(false, d, 16, Stream(iv, []), received);
            && |st.pending| == 16 && Whole(16, 16)
            && var block := Cbc(false, d, 16, st.iv, st.pending).0;
            forall ret, len :: Recovered(With(p), block, ret, len) ==>
              && ret == 0 && 0 <= len <= 16
              && RunOutput(false, d, 16, Stream(iv, []), received) + block[..len] == Flatten(sent)
  {
    hide Enc, Dec, Cut, Cbc, Whole, PadTo, PadMessage, IsPadded, Recovered, LastBlock, RunState, RunOutput;
    DecInvertsEnc(key);
    StreamEncrypts(e, 16, p, iv, sent);
    StreamDecrypts(e, d, 16, p, iv, Flatten(sent), received);
  }
}
