# A verified model of the DLMS/COSEM stack

The repository is a DLMS/COSEM stack: the cryptography it ships, the HDLC link framing, a
calendar, and the COSEM association layer over in-place packets. This project models its cores in
Dafny and proves what they promise. Code that updates state is modelled as classes and loops over
the same fields and buffers; standards are written as functions beside it, and each method is
proved to compute the function.

| file | models |
|---|---|
| Bytes, Gf128, GcmSpec, GcmTable, GcmStream, Gcm | Galois/Counter Mode of share/crypto/gcm.c: the field and the mode as NIST SP 800-38D defines them, the 4-bit table multiplication, the stream, the context |
| GcmRing, GcmSquare, GcmField, GcmDetect | the field of that mode has no zero divisors, and what GHASH and the tag therefore tell apart |
| GcmBytes | the mode byte by byte, blocks as coefficients, GHASH as a polynomial |
| Gf256, AesTables, AesSbox, AesGenTables, AesSpec, AesWords, AesKey, Aes, AesBytes, AesVector | AES of share/crypto/aes.c: constant and generated tables, both key schedules, T-table rounds, and FIPS 197; the same by bytes, rows and columns, and a vector of the self-test |
| FcsTable, Fcs, Hdlc, HdlcWire | the frame check sequence, addresses, control field, encoder and decoder of hdlc/hdlc.c |
| CbcSpec, Padding, CipherLayer, AesCbc | cipher block chaining, paddings and their streaming in share/crypto/cipher.c and share/crypto/aes.c, and the same with AES |
| Cmac | share/crypto/cmac.c |
| Hash | the buffering and padding shared by share/crypto/sha256.c, sha1.c and md5.c |
| Clock | share/util/clock.c |
| PacketArray, Ber, Axdr, AxdrTree | src/csm_array.c, src/csm_ber.c and the data scanner of src/csm_axdr_codec.c |
| Tlv, Acse, AcseWire, Association, Replies, Hls | src/csm_association.c, src/csm_channel.c and src/csm_security.c |
| Memory, Numbers, Wrappers | stores into sequences, byte strings read as numbers, and optional results, shared by the others |

Block ciphers are arbitrary functions on blocks except in the AES files and AesCbc, the hash
compression step is an arbitrary function on states and blocks, and the platform's authenticated
cipher in Hls is an arbitrary function. Random octets, passwords, keys, titles, the outcome of the request decoder and
the answers of the services and of the handshake are parameters. An output pointer that may overlap the input is
modelled by one memory with two positions (GCM) or by the same array passed twice (AES).

What the code does differently from what one would expect of it is stated with its exact
condition:

- scalar_to_ymd shows every 29 February as the thirtieth, and no other date wrongly (Clock).
- get_one_and_zeros_padding accepts some blocks that nothing pads to (Padding); no padded block is
  refused, so the round trip holds all the same.
- The HDLC length subfield survives exactly below 256 (Hdlc), a BER length exactly up to 127 or
  when it happens to have the bits the masks force (Ber).
- The hashes count one call modulo 2^32 bytes (Hash).
- An index of csm_array.c moved so far that its sum with the offset wraps in 32 bits goes back, with a
  success, instead of saturating (PacketArray).
- csm_axdr_decode_tags reports failure on every input, and takes a bit string for too long when
  its bits outnumber the octets left (Axdr, AxdrTree).
- csm_asso_encoder passes over fields in silence when the room is used up exactly at the end of a
  field, and its one-octet length is wrong from a challenge of 58 octets on (Acse).
- A pending association is never turned into an associated one (Association): nothing after pass 3
  and pass 4 of the handshake changes the state.
- Pass 3 compares the tag only for packets that are authenticated and not enciphered, and leaves
  indexes that may point past the buffer once the offset is restored (Hls).
- csm_sec_auth_encrypt with encryption and authentication moves the write index from the end of the
  packet instead of from its start, so that the tag does not follow the ciphertext (Hls).
- add_time returns 60 or 24 for a unit that is a negative multiple of its modulus (Clock).
- gcm_starts accepts initialisation vectors below 2^61 bytes, but stores their bit count in 32
  bits: from 2^29 bytes on the pre-counter block is not the one of the standard, unless the hash
  subkey is zero (Gcm).
- gcm_auth_decrypt checks the tag length last: when only that is at fault, the deciphered text, not
  authenticated, stays in the output region (Gcm).
- The day numbers of clock.c hold up to 14699-12-31, but clk_to_epoch answers all ones for every
  year past 2020 (Clock).
- hdlc_decode does not compare the frame with its head: a frame less than three bytes longer than
  its head is accepted when the two bytes behind the head pass for a header check, and then reports
  an information field whose size has wrapped to more than 65520 bytes (Hdlc).
- The low-level password is compared over as many octets as the last authentication value had, and
  a request may come without one: before any value was sent every password is granted, and a stale
  value is granted again. A grant therefore proves that the request carried a value starting with
  the password exactly when it carried a value at all, or when the value held is longer than eight
  octets and disagrees behind them with a stale challenge, so that nothing is granted (Association).

## Model

| member | source | states |
|---|---|---|
| Gf128.ProductIsTail | share/crypto/gcm.c:206-264 | The bit-by-bit product of section 6.3 of NIST SP 800-38D (its loop over Z and V) is the sum, over the set bits of x, of H times the matching power of P |
| Gf128.Horner | share/crypto/gcm.c:236-258 | The partial product from one nibble on is that nibble times H plus four multiplications by P of the partial product from the next nibble on |
| GcmTable.Shoup | share/crypto/gcm.c:198-204 | One shift by four bits with the last4 reduction is four multiplications by P, for every field element |
| GcmTable.EntrySum | share/crypto/gcm.c:146-156 | A table entry past a power of two is the sum of the entry of the power and the entry of the rest |
| Gcm.GcmContext.constructor | share/crypto/gcm.c:161-190 | A new context with its key set holds the sixteen multiples of the encrypted zero block |
| Gcm.GcmContext.GenTable | share/crypto/gcm.c:101-159 | After the two loops every table entry n is n times the hash subkey, n read as a field element with its top bit at P^0 |
| Gcm.GcmContext.GenPowers | share/crypto/gcm.c:113-144 | The first loop leaves H at entry 8, H times P, P^2 and P^3 at 4, 2 and 1, and zero at 0 |
| Gcm.GcmContext.GenSums | share/crypto/gcm.c:146-156 | One round of the second loop extends the valid entries from i to 2i and keeps the entries 4 and 8 still to be used |
| Gcm.GcmContext.MultStep | share/crypto/gcm.c:243-257 | One nibble step takes the partial product over the later bits to the one over four more bits |
| Gcm.GcmContext.Mult | share/crypto/gcm.c:210-264 | For every block x, also in place, the table-driven loop stores the bit-by-bit product of x and the hash subkey |
| Gcm.GcmContext.AbsorbInto | share/crypto/gcm.c:331-344 | The loop over the associated data leaves the GHASH of the data, the short last block padded with zeros |
| Gcm.GcmContext.Starts | share/crypto/gcm.c:266-347 | Exact error condition; on success the pre-counter block is iv and 1 for 12 bytes, else the GHASH of the padded iv and its length block, the tag mask is its encryption and the running hash is that of the associated data; on error nothing changes |
| Gcm.GcmContext.CryptByte | share/crypto/gcm.c:391-395 | One byte is masked from the input to the output position, and the ciphertext side of it, which one depends on the mode, enters the hash block |
| Gcm.GcmContext.CryptBytes | share/crypto/gcm.c:389-396 | A whole or short block is masked with the key stream and its ciphertext is added to the running hash, with input and output possibly overlapping |
| Gcm.GcmContext.Increment | share/crypto/gcm.c:379-381 | The loop with the early exit is the increment of the last 32 bits modulo 2^32 |
| Gcm.GcmContext.Pass | share/crypto/gcm.c:377-402 | One pass of the loop is one step of the stream on that block |
| Gcm.GcmContext.Process | share/crypto/gcm.c:374-403 | The whole loop writes the key-stream output of the input as it was, also when the output overlaps it from below, and steps counter and hash accordingly |
| Gcm.GcmContext.Update | share/crypto/gcm.c:349-406 | BAD_INPUT exactly for a forward overlap or a total above 2^36 - 32 bytes, changing nothing; otherwise output, counter, hash and length of one stream step |
| Gcm.GcmContext.Finish | share/crypto/gcm.c:408-441 | BAD_INPUT exactly for a tag length outside 4..16; otherwise the masked final hash, without the length block for an empty message and no byte past the tag length; the block hashed last is the one whose first eight bytes read, big-endian, as the number of bits of the associated data and whose other eight as that of the message |
| Gcm.GcmContext.CryptAndTag | share/crypto/gcm.c:443-467 | Exact verdict; on success the output region holds the key-stream output of the input region and the tag is the one over the ciphertext side |
| Gcm.GcmContext.AuthDecrypt | share/crypto/gcm.c:469-503 | With valid parameters: 0 and the plaintext exactly when the given tag is the computed one, else AUTH_FAILED and an output region of zeros; otherwise BAD_INPUT, with the memory as it was, or, when only the tag length is at fault, with the deciphered text in the output region |
| Gcm.SealThenOpen | share/crypto/gcm.c:443-503 | Encrypting and then decrypting with the same key, IV, associated data and tag length returns 0 twice and restores the plaintext, wherever the three regions of the memory lie |
| GcmStream.AbsorbIsGhash | share/crypto/gcm.c:331-344 | Hashing with a short last block is GHASH of the zero-padded string (section 6.4 of NIST SP 800-38D) |
| GcmStream.UpdateAppend | share/crypto/gcm.c:372-403 | A call on whole blocks followed by any call gives the output and the state of one call on everything |
| GcmStream.RunIsOneCall | share/crypto/gcm.c:349-406 | Any run of calls, all but the last on whole blocks, gives the output and the state of one call |
| GcmStream.FinishIsTag | share/crypto/gcm.c:408-441 | The tag is that of section 7.1 of NIST SP 800-38D for every associated data and ciphertext, the skipped length block of the empty message included |
| GcmStream.EncryptRun | share/crypto/gcm.c:266-441 | Any such run of updates and a finish emit the ciphertext and the tag of the standard |
| GcmStream.DecryptRun | share/crypto/gcm.c:266-441 | Fed the ciphertext in any such cut, decryption returns the plaintext and recomputes the same tag |
| Gcm.IvLengthExact | share/crypto/gcm.c:302-303 | The stored IV length block is the one of the standard exactly for an IV below 2^29 bytes |
| Gcm.Limits | share/crypto/gcm.c:279-290 | The two limits are those of section 5.2.1.1 of NIST SP 800-38D |
| Gcm.CounterBlockExact | share/crypto/gcm.c:294-327 | For every IV the pre-counter block is the one of the standard exactly when the IV is below 2^29 bytes or the hash subkey is zero |
| Gcm.TagExact | share/crypto/gcm.c:443-467 | The full tag of the code is the one of the standard exactly when the cipher takes the two pre-counter blocks to the same block |
| Gcm.LongIvDiffers | share/crypto/gcm.c:302-303 | An initialisation vector of 2^29 zero bytes and a cipher for which the pre-counter blocks differ |
| Gcm.CodeIsStandard | share/crypto/gcm.c:266-441 | Below 2^29 bytes of IV the pre-counter block and the tag of the code are those of the standard |
| GcmRing.MulCommutes | share/crypto/gcm.c:206-264 | The product of the field elements, read through their blocks, is commutative |
| GcmRing.MulAssociates | share/crypto/gcm.c:206-264 | The product of the field elements is associative |
| GcmSquare.SquareIsMul | share/crypto/gcm.c:206-264 | Spreading the bits of both words and folding P^128 back computes the square of a field element |
| GcmField.FrobReturns | share/crypto/gcm.c:206-264 | Squaring a field element 128 times gives it back |
| GcmField.NoZeroDivisors | share/crypto/gcm.c:206-264 | A product is zero exactly when a factor is: the polynomial of section 6.3 of NIST SP 800-38D is irreducible |
| GcmDetect.GMulInjective | share/crypto/gcm.c:210-264 | Different blocks have different products with a hash subkey that is not zero |
| GcmDetect.GhashBlock | share/crypto/gcm.c:331-402 | Two hashed strings that differ in one block only have different hashes, exactly when the subkey is not zero |
| GcmDetect.TagDetectsBlock | share/crypto/gcm.c:408-441 | Changing one block of a ciphertext, the short last one included, changes the full tag, exactly when the hash subkey is not zero |
| Gcm.RunUpdates | share/crypto/gcm.c:349-406 | A list of update calls on a context stops with BAD_INPUT exactly when the total passes the limit, and otherwise has the output and leaves the state of the run |
| Gcm.InPieces | share/crypto/gcm.c:266-441 | starts, any list of updates and finish on one context: the exact verdict, and on success the output of the run and the tag over it |
| Gcm.SealInPieces | share/crypto/gcm.c:266-441 | A message in any pieces, all but the last whole blocks, is encrypted to the ciphertext and the tag of the standard, for an IV below 2^29 bytes |
| Gcm.OpenInPieces | share/crypto/gcm.c:266-441 | That ciphertext in any such pieces is decrypted to the message, with the same tag |
| GcmSpec.GctrInvolution | share/crypto/gcm.c:389-396 | Applying the key stream twice gives back every string |
| GcmSpec.LengthsRead | share/crypto/gcm.c:426-429 | A block reads, big-endian, as the numbers of bits of associated data and ciphertext, in this order, exactly when it is the length block |
| GcmSpec.IvLengthReads | share/crypto/gcm.c:302-303 | The length block of the standard for an initialisation vector reads as its number of bits |
| Gcm.CodeIvLengthReads | share/crypto/gcm.c:302-303 | The one the code stores reads as that number modulo 2^32 |
| GcmSpec.Inc32Reads | share/crypto/gcm.c:379-381 | The last four bytes, read big-endian, count by one modulo 2^32, and the first twelve stay |
| GcmBytes.CiphertextAt | share/crypto/gcm.c:372-396 | With a vector of twelve bytes, byte i of the ciphertext is that of the plaintext masked with byte i modulo 16 of the encryption of the vector followed by the number 2 + i / 16 |
| GcmBytes.TagAt | share/crypto/gcm.c:408-441 | Every byte of the tag is that of the hash, under the encryption of the zero block, of associated data and ciphertext, each filled up with zeros, and of the two numbers of bits, masked with the encryption of the pre-counter block |
| GcmBytes.HashedCounter | share/crypto/gcm.c:294-327 | For a vector of another length than twelve bytes the pre-counter block of the standard is the hash of the vector, filled up with zeros, and of its number of bits |
| GcmBytes.MulPCoefficients | share/crypto/gcm.c:243-257 | Multiplication by P moves every coefficient up by one, and P^128 is 1 + P + P^2 + P^7 |
| GcmBytes.BlockIsSum | share/crypto/gcm.c:206-264 | Bit i of a block is counted from the most significant bit of its first byte, and the element it is read as is the sum of the powers of P at the bits that are set |
| GcmBytes.GhashIsPolynomial | share/crypto/gcm.c:331-402 | The hash of m blocks is the polynomial with these coefficients at the subkey, the first with the power m and the last with the first power |
| AesSpec.SboxInverse | share/crypto/aes.c:94-131 | The reverse S-box undoes the forward one on all 256 bytes |
| AesGenTables.Tables.GenTables | share/crypto/aes.c:389-463 | The tables computed at start-up, both S-boxes, the eight round tables and the round constants, are entry for entry the constant ones |
| AesGenTables.Tables.Powers | share/crypto/aes.c:398-403 | The loop leaves the powers of 3 and, for every non-zero byte, its logarithm, that of 1 being overwritten by 255 |
| AesGenTables.MulIsProduct | share/crypto/aes.c:385 | Adding the tabulated logarithms modulo 255 is the product in GF(2^8) of any two bytes, 0 and 1 included |
| AesGenTables.PowOfLog | share/crypto/aes.c:398-403 | 3 to the logarithm of a non-zero byte is the byte |
| AesGenTables.LogOfPow | share/crypto/aes.c:398-403 | The logarithm of 3 to the power i is i below 255 |
| AesGenTables.SboxFromLogs | share/crypto/aes.c:420-432 | The power at 255 minus the logarithm of a byte, transformed, is its S-box entry |
| AesGenTables.SboxOfInverse | share/crypto/aes.c:94-131 | The S-box entry of a byte is the affine image of every inverse it has in GF(2^8), which is therefore unique |
| AesGenTables.Tables.SBoxes | share/crypto/aes.c:415-432 | The rotations and sums of the loop fill the S-box, and writing every index at its image fills the reverse one |
| AesGenTables.Tables.RoundTables | share/crypto/aes.c:434-462 | The last loop fills the forward tables from doubled and tripled S-box bytes and the reverse tables from products by logarithms |
| AesGenTables.Tables.RoundConstants | share/crypto/aes.c:405-412 | Repeated doubling yields the ten round constants |
| AesSbox.SboxIsAffineInverse | share/crypto/aes.c:94-131 | Every S-box entry is the affine image of an inverse of its index in GF(2^8) (section 5.1.1 of FIPS 197) |
| AesWords.ForwardColumns | share/crypto/aes.c:133-213 | The entries of the four forward tables are the S-box byte times the columns of the MixColumns matrix |
| AesWords.ReverseColumns | share/crypto/aes.c:260-340 | The entries of the four reverse tables are the reverse S-box byte times the columns of the InvMixColumns matrix |
| AesWords.FWordColumn | share/crypto/aes.c:663-684 | One word of a forward round is MixColumns of the four substituted bytes, plus the key word |
| AesWords.RWordColumn | share/crypto/aes.c:686-707 | One word of a reverse round is InvMixColumns of the four substituted bytes, plus the key word |
| AesWords.InvKeyWordColumn | share/crypto/aes.c:644-647 | The table expression of the decryption schedule is InvMixColumns of the key word |
| AesKey.CoreIsSpec | share/crypto/aes.c:533-537 | The first word of a group is that of the key expansion of FIPS 197: SubWord of RotWord, with the round constant |
| AesKey.HalfIsSpec | share/crypto/aes.c:577-581 | Word 12 of a 256-bit group is the SubWord step of the key expansion |
| Aes.FRoundIsRound | share/crypto/aes.c:663-684 | A forward round on four words is SubBytes, ShiftRows, MixColumns and AddRoundKey on the state |
| Aes.RRoundIsRound | share/crypto/aes.c:686-707 | A reverse round on four words is a round of the equivalent inverse cipher |
| Aes.FFinalIsLast | share/crypto/aes.c:735-757 | The last encryption step is SubBytes, ShiftRows and AddRoundKey |
| Aes.RFinalIsLast | share/crypto/aes.c:801-823 | The last decryption step is InvSubBytes, InvShiftRows and AddRoundKey |
| Aes.AesContext.SetkeyEnc | share/crypto/aes.c:484-591 | INVALID_KEY_LENGTH exactly for other key lengths; otherwise the buffer holds the key schedule of FIPS 197 for 128, 192 or 256 bits |
| Aes.AesContext.Expand128 | share/crypto/aes.c:529-543 | The 128-bit loop produces every word of the recursive key expansion |
| Aes.AesContext.Expand192 | share/crypto/aes.c:545-561 | The 192-bit loop produces every word of the recursive key expansion |
| Aes.AesContext.Expand256 | share/crypto/aes.c:563-587 | The 256-bit loop produces every word of the recursive key expansion |
| Aes.AesContext.SetkeyDec | share/crypto/aes.c:598-660 | The decryption schedule is the encryption schedule in reverse order with InvMixColumns on the inner round keys |
| Aes.AesContext.Encrypt | share/crypto/aes.c:713-765 | The T-table rounds compute Cipher of FIPS 197 under the schedule held, in place too |
| AesBytes.ScheduleBytes | share/crypto/aes.c:504-596 | Round key i is the words 4i to 4i + 3, in order, of the key expansion of section 5.2 of FIPS 197 done on bytes |
| AesBytes.ScheduleStarts | share/crypto/aes.c:513-516 | The schedule begins with the bytes of the key, in order |
| AesBytes.ShiftRowsAt | share/crypto/aes.c:663-681 | Row r of the state moves by r columns |
| AesBytes.MixColumnAt | share/crypto/aes.c:663-681 | A column is multiplied by the matrix of section 5.1.3, with products in GF(2^8) |
| AesVector.ZeroBlockEncrypted | share/crypto/aes.c:713-765 | Under the 128-bit key of the self-test the cipher takes the zero block to the block the subkeys of CMAC are made of, followed round by round |
| AesVector.SelfTestSubkeys | share/crypto/cmac.c:509-525 | The two subkeys of CMAC under that key are those listed in the self-test |
| AesVector.SelfTestTags | share/crypto/cmac.c:310-369 | Under that key the tag of the empty message is the encryption of the bit 1 and zeros added to the second subkey listed, and that of a whole block the encryption of the block added to the first |
| AesVector.ShortProduct | share/crypto/cmac.c:689-699 | The second subkey listed for a cipher with blocks of eight bytes is the product of the first with u |
| Aes.AesContext.Decrypt | share/crypto/aes.c:779-831 | The T-table rounds compute the equivalent inverse cipher of section 5.3.5 under the schedule held |
| AesSpec.InvCipherUndoes | share/crypto/aes.c:779-831 | The inverse cipher undoes the cipher for every schedule and block |
| AesSpec.EqInvCipherAgrees | share/crypto/aes.c:598-660 | With the transformed schedule the equivalent inverse cipher is the inverse cipher |
| Aes.DecryptUndoesEncrypt | share/crypto/aes.c:598-831 | For every key of 128, 192 or 256 bits and every block, decryption undoes encryption |
| Fcs.TableEntry | hdlc/hdlc.c:56-89 | Every table entry is eight steps of the reflected shift register with polynomial 0x8408 |
| Fcs.CrcIsBitSerial | hdlc/hdlc.c:56-102 | The table-driven sequence is the bit-serial register of appendix C.2 of RFC 1662 on all inputs |
| Fcs.CrcAppend | hdlc/hdlc.c:95-102 | Running over a and then b is running over their concatenation |
| Fcs.Pppfcs16 | hdlc/hdlc.c:95-102 | The loop computes that sequence over the given stretch of the buffer |
| Fcs.Injective | hdlc/hdlc.c:95-102 | From different registers the same bits lead to different registers |
| Fcs.BurstDetected | hdlc/hdlc.c:95-102 | Any change within 16 consecutive bits changes the final register |
| Fcs.OddErrorsDetected | hdlc/hdlc.c:95-102 | Any odd number of changed bits changes the final register |
| Fcs.ChecksIffResidue | hdlc/hdlc.c:476-489 | A frame passes its check exactly when the register over content and check bytes ends in 0xF0B8 |
| Fcs.FrameBurst | hdlc/hdlc.c:476-489 | No frame that passes still passes after any change within 16 consecutive bits, whatever its length |
| Fcs.FrameOddErrors | hdlc/hdlc.c:476-489 | Nor after any odd number of bit errors |
| Fcs.FrameAdjacentBytes | hdlc/hdlc.c:476-489 | Nor after replacing one byte or two adjacent bytes between the flags |
| Fcs.TrailerChecks | hdlc/hdlc.c:602-607 | What the encoder appends always passes the check |
| Hdlc.AddrEnds | hdlc/hdlc.c:164-181 | The address size is found from the low bits, whatever follows the address |
| Hdlc.AddrRoundTrip | hdlc/hdlc.c:183-242 | An address of 1, 2 or 4 bytes comes back exactly when its bits survive the 0x7E masks |
| Hdlc.DataControlDecodes | hdlc/hdlc.c:328-348 | The control byte of an information frame decodes to its type, the poll bit, and the counters exactly when they are below 8 |
| Hdlc.RrControlDecodes | hdlc/hdlc.c:328-348 | The control byte of a receive-ready frame decodes to its type, the poll bit, and the counter exactly when it is below 8 |
| Hdlc.DecodeAddrSize | hdlc/hdlc.c:164-181 | The loop over at most four bytes finds the address size |
| Hdlc.SetAddr | hdlc/hdlc.c:220-242 | The address bytes for the three schemes, an error and no write for another size |
| Hdlc.CheckFcs | hdlc/hdlc.c:476-489 | The frame check succeeds exactly on matching check bytes |
| Hdlc.CheckHcs | hdlc/hdlc.c:493-506 | The header check succeeds exactly on matching check bytes |
| Hdlc.HdlcContext.Encode | hdlc/hdlc.c:535-619 | The buffer holds the whole frame of the fields, control byte and data, HCS and FCS included, and nothing else changes; the size is compared only afterwards |
| Hdlc.HdlcContext.EncodeData | hdlc/hdlc.c:519-525 | The frame of an information packet with both counters; only the type field changes |
| Hdlc.HdlcContext.EncodeRr | hdlc/hdlc.c:526-533 | The frame of a receive-ready packet; only the type field changes |
| Hdlc.HdlcContext.Decode | hdlc/hdlc.c:622-758 | Return code and every field left behind, also on each error path, for any buffer contents and size |
| Hdlc.HdlcContext.DecodeControlField | hdlc/hdlc.c:328-348 | The search of the table finds the first entry that fits; poll bit and counters are set in any case |
| HdlcWire.AcceptedFields | hdlc/hdlc.c:622-758 | What every accepted frame leaves, in the numbers on the wire: size, segmentation bit, poll bit, both counters, and both addresses by direction and length |
| HdlcWire.AcceptedTypes | hdlc/hdlc.c:314-324 | The type left by every accepted frame is each of the nine exactly for its control bytes, with the poll bit clear or set |
| HdlcWire.UnknownControl | hdlc/hdlc.c:328-348 | An accepted envelope is answered with ERR only for a control byte of none of the nine types |
| HdlcWire.RefusedFields | hdlc/hdlc.c:622-758 | What every refused frame leaves, by its return code: nothing before the size is read, then the segmentation bit and the size, then the addresses, the poll bit and the counters, and the type; never an information field |
| HdlcWire.FormatBytes | hdlc/hdlc.c:585-589 | The two bytes of the frame format read as 0xA000 plus the length modulo 2^11 |
| HdlcWire.QuotedFrame | hdlc/hdlc.c:13-36 | The connection request quoted at the head of the file is what the encoder writes, and is decoded with the addresses, the type and the poll bit given there |
| Hdlc.LengthRoundTrip | hdlc/hdlc.c:113-117 | Of all lengths the encoder writes, the subfield is read back exactly below 256: its high bits are written at 2^8 and read at 2^11 |
| Hdlc.FrameLands | hdlc/hdlc.c:535-758 | What arrives of an encoded frame below 256 bytes whatever its addresses: every field but the address bits the wire does not carry, or an error for an unknown control byte |
| Hdlc.FrameRoundTrip | hdlc/hdlc.c:535-758 | Decoding an encoded frame with the same sender returns OK and every field sent, for all three address schemes, exactly when the frame is below 256 bytes, its address bits have a place on the wire and its control byte is known; the information bytes are where data_index says |
| Hdlc.DataRoundTrip | hdlc/hdlc.c:519-758 | The same for information frames, with both counters |
| Hdlc.RrRoundTrip | hdlc/hdlc.c:526-758 | The same for receive-ready frames |
| Hdlc.DecodedVerdict | hdlc/hdlc.c:622-758 | The return code on every buffer, from flags, format, size, checks, address sizes and control byte, and the frame size and information field left by every success |
| Hdlc.AcceptedFrames | hdlc/hdlc.c:622-758 | Whatever is accepted lies between two flags, passes its frame check and has the addresses of its direction; a frame with room for its head reports no information field or, behind a head that passes its own check, the one that ends where the frame check begins, and a shorter one a size that has wrapped in 16 bits |
| Hdlc.InfoEndsAtCheck | hdlc/hdlc.c:713-731 | The field a frame is taken to have ends at the frame check, or there is none, exactly when the frame is at least three bytes longer than its head |
| Hdlc.ShortFrameAccepted | hdlc/hdlc.c:713-731 | A frame of six bytes that passes both checks and reports 65531 bytes of information |
| CbcSpec.CbcAppend | share/crypto/aes.c:901-932 | Chaining over a and then b from the value left is chaining over both |
| CbcSpec.CbcRoundTrip | share/crypto/aes.c:901-932 | Decryption undoes encryption block by block and chains through the same values |
| CbcSpec.CbcBlock | share/crypto/aes.c:901-932 | Block by block: a block is added to the ciphertext block before it, or to the IV, and then enciphered; deciphering goes the other way |
| CbcSpec.UpdateAppend | share/crypto/cipher.c:320-401 | Two updates give the output and the state of one on everything, wherever the cut falls |
| CbcSpec.RunIsOneCall | share/crypto/cipher.c:320-401 | Any run of updates gives the output and the state of one |
| CipherLayer.CipherContext.constructor | share/crypto/cipher.c:155-251 | A new context holds the IV and no pending bytes |
| CipherLayer.CipherContext.CryptCbc | share/crypto/aes.c:876-935 | INVALID_INPUT_LENGTH exactly for a ragged length, changing nothing; otherwise the loop over blocks is CBC of the input and leaves the next chaining value in the IV |
| CipherLayer.CipherContext.Update | share/crypto/cipher.c:314-401 | In-place use is refused exactly when bytes are pending or the length is ragged; otherwise output, chaining value and pending bytes of one stream step, decryption keeping back a whole last block |
| CipherLayer.CipherContext.Blocks | share/crypto/cipher.c:365-398 | The last, incomplete block is cached before the full ones are processed |
| CipherLayer.CipherContext.Finish | share/crypto/cipher.c:650-697 | The padded last block when encrypting; when decrypting a full block is required, deciphered and its padding reported; FULL_BLOCK_EXPECTED otherwise; with the chaining value and the pending block after the call |
| CipherLayer.StreamEncrypts | share/crypto/cipher.c:320-697 | For every cut of the message the updates and finish emit CBC of the padded message |
| CipherLayer.StreamDecrypts | share/crypto/cipher.c:320-697 | That ciphertext in any other cut decrypts to the message for PKCS7, one-and-zeros and zeros-and-len |
| CipherLayer.EncryptInPieces | share/crypto/cipher.c:314-697 | A context driven through any list of updates and finish returns 0 and CBC of the padded message |
| CipherLayer.DecryptInPieces | share/crypto/cipher.c:314-697 | A context driven through any other cut of that ciphertext returns 0 and the message, for the three paddings that mark its end |
| AesCbc.DecInvertsEnc | share/crypto/aes.c:713-831 | Under every key of the three lengths the two AES block functions are inverse, as the cipher layer asks of its ciphers |
| AesCbc.MessageReturns | share/crypto/cipher.c:320-697 | For every AES key, IV, message and padding that marks its end, streaming through CBC encryption in any cut and through decryption in any other gives the message back without an error |
| CipherLayer.ZerosDecrypt | share/crypto/cipher.c:578-605 | With zero padding the message comes back exactly when it is a whole number of blocks or does not end in a zero byte |
| Padding.PadToInjective | share/crypto/cipher.c:459-547 | A padded block has one reading only under the three schemes that mark the end of the data |
| Padding.PadToCounts | share/crypto/cipher.c:459-547 | The bytes that count the filling are its length as a number |
| Padding.AddPkcs | share/crypto/cipher.c:459-467 | The block keeps its data and is filled with the count |
| Padding.AddOneAndZeros | share/crypto/cipher.c:499-508 | The block keeps its data and is filled with 0x80 and zeros |
| Padding.AddZerosAndLen | share/crypto/cipher.c:538-547 | The block keeps its data and is filled with zeros and the count |
| Padding.AddZeros | share/crypto/cipher.c:578-585 | The block keeps its data and is filled with zeros |
| Padding.GetPkcs | share/crypto/cipher.c:469-492 | Success exactly on a padded block, with the length of its data; the loop does not branch on the data |
| Padding.GetZerosAndLen | share/crypto/cipher.c:549-571 | Success exactly on a padded block, with the length of its data |
| Padding.GetOneAndZeros | share/crypto/cipher.c:510-531 | Success exactly when the last nonzero byte is even, no bit but the top one is set in every byte and the top bit is set in some byte |
| Padding.OneAndZerosIs | share/crypto/cipher.c:510-531 | Every padded block is accepted; an accepted block is padded exactly when its last nonzero byte is 0x80 |
| Padding.OneAndZerosTooLenient | share/crypto/cipher.c:510-531 | A block that is accepted although no data pads to it |
| Padding.GetZeros | share/crypto/cipher.c:587-605 | The length up to the last nonzero byte |
| Cmac.MulUBits | share/crypto/cmac.c:85-131 | Bit i of the result is bit i+1 of the block, plus bit i of R_64 or R_128 when the top bit falls out: multiplication by u |
| Cmac.ReductionBits | share/crypto/cmac.c:90-117 | R_128 has the bits of u^7 + u^2 + u + 1 and R_64 those of u^4 + u^3 + u + 1 |
| Cmac.PadBits | share/crypto/cmac.c:184-200 | The padded block has the bits of the message, one bit 1, and zeros |
| Cmac.MultiplyByU | share/crypto/cmac.c:85-131 | The loop from the last byte down and the masked reduction compute it for 8 and 16 bytes; any other size is refused |
| Cmac.FeedTwice | share/crypto/cmac.c:258-304 | Two updates leave the state and the pending bytes of one on everything |
| Cmac.FeedIsMac | share/crypto/cmac.c:242-355 | The buffered computation is the CMAC of section 2.4 of RFC 4493, defined by block numbers, for every message |
| Cmac.StreamTag | share/crypto/cmac.c:242-369 | For every cut of the message between 1 and a block of bytes are pending once it is not empty, and finish gives its CMAC |
| Cmac.TagInPieces | share/crypto/cmac.c:202-369 | A context driven through any list of updates and finish returns the CMAC of the message |
| Cmac.CmacContext.Starts | share/crypto/cmac.c:202-240 | A new context has a zero state and nothing pending |
| Cmac.CmacContext.Absorb | share/crypto/cmac.c:168-176 | The state becomes the encryption of its sum with the block |
| Cmac.CmacContext.Update | share/crypto/cmac.c:242-308 | State and pending bytes after any update, the last block always kept back |
| Cmac.CmacContext.Chew | share/crypto/cmac.c:280-295 | The loop absorbs every block but the last, which may be complete or not |
| Cmac.CmacContext.GenerateSubkeys | share/crypto/cmac.c:138-166 | K1 and K2 are one and two multiplications by u of the encrypted zero block |
| Cmac.CmacContext.Pad | share/crypto/cmac.c:184-200 | The pending bytes followed by 0x80 and zeros |
| Cmac.CmacContext.Finish | share/crypto/cmac.c:310-369 | The tag, with K1 for a complete last block and K2 for a padded one, and a context ready for the next message |
| Cmac.Tag | share/crypto/cmac.c:390-420 | One call computes the CMAC of its input |
| Cmac.Prf128 | share/crypto/cmac.c:426-468 | AES-CMAC-PRF-128 of RFC 4615: a key of another length is first hashed under the zero key |
| Hash.FeedTwice | share/crypto/sha256.c:257-276 | Two updates compress the same blocks and leave the same bytes as one on everything |
| Hash.HashContext.Starts | share/crypto/sha256.c:103-135 | A new context has the initial state, a zero count and nothing pending |
| Hash.HashContext.Update | share/crypto/sha256.c:241-277 | State, pending bytes and 64-bit count after any update, the count rising by the length modulo 2^32 |
| Hash.HashContext.Complete | share/crypto/sha256.c:257-265 | The pending bytes are completed to a block and compressed when the input suffices |
| Hash.HashContext.Compress | share/crypto/sha256.c:267-272 | The loop compresses every whole block |
| Hash.HashContext.Tally | share/crypto/sha256.c:250-255 | The two counter words with their carry are addition modulo 2^64 |
| Hash.HashContext.Finish | share/crypto/sha256.c:290-319 | Padding and bit count are compressed after the pending bytes, for either byte order, and nothing is left pending |
| Hash.BitCount | share/crypto/sha256.c:296-301 | The eight length bytes read, in the byte order of the hash, as the byte count times eight modulo 2^64 |
| Hash.PaddedIs | share/crypto/sha256.c:279-307 | The padded message is the message, 0x80, zeros, and eight bytes that read as its number of bits in the byte order of the hash, and no more blocks than that takes |
| Hash.DigestByBlocks | share/crypto/sha256.c:267-272 | The digest of n blocks is the last of the states the blocks lead through, in their order |
| Hash.RunIsOneFeed | share/crypto/sha1.c:273-308 | Any run of updates compresses the same blocks as one |
| Hash.CountExact | share/crypto/sha1.c:282-287 | The count is the message length exactly when no single call was given 2^32 bytes or more |
| Hash.StreamDigest | share/crypto/md5.c:239-312 | Any run of such calls and a finish compress exactly the padded message, below 2^61 bytes, for the three hashes |
| Hash.DigestInPieces | share/crypto/md5.c:239-312 | A context driven through any such list of updates and finish returns the digest of the message |
| Hash.LongCallMiscounts | share/crypto/sha1.c:282-287 | One call of 2^32 bytes or more makes the bit count wrong |
| Hash.OneShot | share/crypto/sha256.c:326-339 | One call hashes the padded input, below 2^32 bytes |
| Clock.ScalarSucceeds | share/util/clock.c:40-49 | Each valid date is numbered one more than the day before |
| Clock.ScalarCounts | share/util/clock.c:40-49 | The number of a date counts the days from 1 January of the year 1, over all runs of days |
| Clock.ScalarInjective | share/util/clock.c:40-49 | Different valid dates have different numbers |
| Clock.DowAdvances | share/util/clock.c:97-100 | The day of the week advances by one modulo 7 over all runs of days |
| Clock.GuessIsLow | share/util/clock.c:57-57 | The guess of the year is never past it |
| Clock.MonthDayInverts | share/util/clock.c:64-71 | The month formula is inverted exactly for every date but 29 February, which gives 30 |
| Clock.ScalarToYmd | share/util/clock.c:51-73 | Both loops end and the result is the date with that number, 29 February shown as the thirtieth |
| Clock.ToDatetime | share/util/clock.c:133-154 | The broken-down time of every 32-bit second |
| Clock.EpochRoundTrip | share/util/clock.c:75-154 | From 1970 to 2020 a second comes back from its broken-down time, a day late on a 29 February; later years give all ones |
| Clock.DatetimeRoundTrip | share/util/clock.c:75-154 | Conversely a valid date and time of those years comes back, 29 February as the thirtieth |
| Clock.WeekdayOfSecond | share/util/clock.c:147-147 | The weekday of a second counts the days since Thursday 1 January 1970, one too far on a 29 February |
| Clock.TmRanges | share/util/clock.c:131-160 | Months and days of the week and of the year count from 0, days of the month from 1, and day 0 of the year is exactly 1 January |
| Clock.LastDowIsLast | share/util/clock.c:102-122 | The result is such a weekday of the month, and its last one exactly when that is not the leap day |
| Clock.NormalIs | share/util/clock.c:318-323 | One unit is split without loss, and lands in range exactly when it is not a negative multiple of the modulus |
| Clock.AddTime | share/util/clock.c:302-346 | No second is lost, and the result is a time of day exactly when no unit is a negative multiple of its modulus |
| PacketArray.CsmArray.constructor | src/csm_array.c:22-31 | The index invariant holds from the start exactly when the offset lies within the buffer; otherwise the write index wraps |
| PacketArray.CsmArray.Get | src/csm_array.c:33-46 | The octet at an index counted from the offset, 0 and a failure outside |
| PacketArray.CsmArray.Set | src/csm_array.c:48-57 | One octet is replaced, nothing outside the buffer |
| PacketArray.CsmArray.WriteU8 | src/csm_array.c:59-74 | One octet is appended if there is room, the invariant kept |
| PacketArray.CsmArray.WriteU16 | src/csm_array.c:76-91 | Two octets are appended if there is room; an exact fill reports a failure all the same |
| PacketArray.CsmArray.WriteU32 | src/csm_array.c:93-108 | Four octets are appended if there is room; an exact fill reports a failure all the same |
| PacketArray.CsmArray.WriterJump | src/csm_array.c:123-136 | The index moves and saturates at the end of the buffer, where a failure is reported even when every octet fitted; when the sum with the offset wraps in 32 bits it goes back instead, with a success, and the indexes stay valid exactly when the index itself wraps |
| PacketArray.CsmArray.ReaderJump | src/csm_array.c:138-152 | The same for the read index |
| PacketArray.CsmArray.WriteBuff | src/csm_array.c:163-179 | The octets are appended all or none |
| PacketArray.CsmArray.ReadU8 | src/csm_array.c:211-225 | The first unread octet is taken, if there is one |
| PacketArray.CsmArray.ReadU16 | src/csm_array.c:239-249 | The first two unread octets are taken, most significant first |
| PacketArray.CsmArray.ReadU32 | src/csm_array.c:227-237 | The first four unread octets are taken, most significant first |
| PacketArray.Be32OfValue | src/csm_array.c:93-108 | A 32-bit value read from four octets is written back as the same octets |
| PacketArray.Be32Reads | src/csm_array.c:93-108 | Four octets are those of a value exactly when they read as it, the most significant first |
| Ber.WriteLen | src/csm_ber.c:83-104 | The length octets are appended if there is room for all of them |
| Ber.ReadLen | src/csm_ber.c:106-148 | Value, octets taken and verdict on every input, truncated and over-long forms included |
| Ber.LenRoundTrip | src/csm_ber.c:83-148 | A written length is read back exactly up to 127, and above 0x8000 when its low octet is below 128 |
| AxdrTree.ReadLenExact | src/csm_ber.c:106-148 | A length is read exactly when one of its three forms stands there whole, and then with its value |
| Axdr.Lookup | src/csm_axdr_codec.c:112-140 | The search of the tags table finds the entry of a tag, or its end |
| Axdr.Size | src/csm_axdr_codec.c:31-45 | A coded size is accepted exactly when it is at most the octets left |
| Axdr.Skip | src/csm_axdr_codec.c:128-137 | The octets jumped over: the size, the octets of a bit field, or none for a structure |
| Axdr.Value | src/csm_axdr_codec.c:109-147 | One pass of the loop is one step of the scan of the unread octets |
| Axdr.DecodeTags | src/csm_axdr_codec.c:102-155 | On every input the loop ends, reports no success, and calls back exactly what the scan says; without an error it consumes the input |
| AxdrTree.ScanIsPreorder | src/csm_axdr_codec.c:78-155 | On the encoding of any nested values, every length form included, the flat loop ends without an error exactly when every bit string fits, and has then called back tag, size and position of every value in preorder |
| AxdrTree.BitStringRefused | src/csm_axdr_codec.c:38-43 | A bit string of 16 bits at the end of the input is refused: bits are compared with octets |
| AxdrTree.CutShort | src/csm_axdr_codec.c:109-147 | A value of fixed size that is cut short is called back whole and without an error; an unknown tag and a length beyond the end are errors |
| AxdrTree.QuotedIsScanned | src/csm_services.c:731-742 | The scanner reports the nine values of the selective access quoted in the source, each with its tag, size and place |
| Axdr.BitfieldFits | src/csm_axdr_codec.c:132-135 | The octets of a bit field are the fewest that hold its bits |
| Tlv.ParseBytes | src/csm_ber.c:236-256 | Trees whose lengths fit the short form are read back from their octets |
| Acse.EncodeOid | src/csm_association.c:634-642 | An object identifier of seven octets |
| Acse.EncodeResult | src/csm_association.c:667-688 | Result 1 for an idle association, else 0 |
| Acse.EncodeDiagnostic | src/csm_association.c:691-712 | The diagnostic in its two nested values |
| Acse.EncodeTitle | src/csm_association.c:714-732 | The system title |
| Acse.EncodeRequirements | src/csm_association.c:734-752 | The bit string of the authentication requirement |
| Acse.EncodeAuthValue | src/csm_association.c:770-786 | A challenge of any size up to 64 with its two lengths |
| Acse.EncodeResponderAuth | src/csm_association.c:792-821 | A challenge as long as the client's is stored and sent, and stored even when there is no room |
| Acse.EncodeCallingAuth | src/csm_association.c:823-852 | The password for the low level, a challenge otherwise, stored and sent |
| Acse.EncodeUserInfo | src/csm_association.c:867-944 | The user information, both lengths set once the contents are written; the request wants one octet to spare |
| Acse.RunChain | src/csm_association.c:1152-1176 | Verdict, octets and state after a chain, for every room: a field whose tag does not fit is passed over in silence |
| Acse.Encode | src/csm_association.c:1132-1191 | The message in the packet with its length octet, or a failure, for every room |
| Acse.EndsIff | src/csm_association.c:1152-1182 | Success exactly when everything fits or the room is used up exactly at the end of an earlier field |
| Acse.AareIsTrees | src/csm_association.c:958-974 | The fields of the response are its nested values, 70 octets and the challenge, or 41 without security |
| Acse.AarqIsTrees | src/csm_association.c:979-990 | The fields of the request are its nested values, 46 octets and the challenge, or 29 without security |
| Acse.AareWellFormed | src/csm_association.c:1132-1191 | With enough room the response is read back as the nested message exactly for a challenge up to 57 octets, or without security |
| Acse.AarqWellFormed | src/csm_association.c:1132-1191 | With an octet to spare the request is always read back as the nested message |
| AcseWire.BlockReads | src/csm_association.c:854-864 | The conformance block reads, most significant octet first, as the low 24 bits of the value |
| AcseWire.AareIsOctets | src/csm_association.c:958-974 | The fields of the response, octet by octet |
| AcseWire.AarqIsOctets | src/csm_association.c:979-990 | The fields of the request, octet by octet, with the password for the low level and a challenge otherwise |
| AcseWire.ChallengeKept | src/csm_association.c:770-852 | What is kept of a challenge or a password is what is sent, and nothing else of the state changes |
| Association.IsGranted | src/csm_association.c:1005-1048 | The decision: only an idle association is decided on; associated exactly at the lowest level or when the comparison of the low level succeeds, pending exactly for GMAC, with the verdict and the diagnostic that agree, and no other field than the borrowed challenge buffer touched |
| Association.GrantAgrees | src/csm_association.c:1005-1048 | Associated exactly at the lowest level or when as many octets as were last sent agree with the password and, past its eight, with what the server challenge left; pending exactly for GMAC; a diagnostic that agrees |
| Association.GrantProvesPassword | src/csm_association.c:1017-1032 | What a low-level grant of an accepted request proves, for an idle association: no password at all is granted exactly when the value compared is longer than eight octets and the octets behind them disagree with the stale ones; a grant implies that this request carried a value starting with the password exactly when it carried a value at all or nothing is granted; that it carried the password and nothing else exactly when it carried eight octets or nothing is granted |
| Association.PasswordGranted | src/csm_association.c:1017-1032 | A request whose value starts with the password is granted exactly when the value has eight octets or the others agree with the stale ones |
| Association.AbsentPassword | src/csm_association.c:586-586 | A low-level request without an authentication value is decided on what an earlier request left: it is granted whatever the password before any value was sent, and after one of eight octets that was the password |
| Association.Stack.constructor | src/csm_channel.c:27-46 | Every association is idle and every channel free |
| Association.Stack.Execute | src/csm_channel.c:48-110 | New state and reply are those of one step; a response is in the packet |
| Association.Stack.ServerExecute | src/csm_association.c:1193-1249 | Idle, associated and pending associations against requests and releases |
| Association.Stack.Disconnect | src/csm_channel.c:238-248 | The channel is freed and the association it last used becomes idle |
| Association.Stack.Connect | src/csm_channel.c:250-267 | The first free channel is taken, numbered by its place |
| Association.StepControl | src/csm_channel.c:48-110 | In one step an association becomes or stays associated, and pending, exactly by a grant, a challenge, or the absence of a release; no other state is entered |
| Association.ResponseAgrees | src/csm_association.c:667-712 | Every response carries result 0 exactly when the association is not idle, and diagnostic 0, 14, or 11 or 13 for associated, pending and idle, as far as its octets reach |
| Association.RunControl | src/csm_channel.c:27-110 | After any run from idle, associated exactly when the last grant has not been released since, pending exactly when the last challenge has not: nothing turns pending into associated |
| Association.RunNumbered | src/csm_channel.c:250-267 | Over all runs a channel in use is numbered by its place |
| Replies.StepReply | src/csm_channel.c:76-109 | The exact condition of every reply: the services only for an associated association, the access of the handshake only for a pending one, a release only for an associated one, a response only for an accepted request of an idle one with room for it |
| Replies.ReplyAt | src/csm_channel.c:76-109 | The reply to every packet that finds its association, the octets of a response included |
| Replies.StepAssociation | src/csm_channel.c:48-110 | Every association after every event: unchanged but for a release or a request that reaches it; a request is learnt whole |
| Replies.StepChannels | src/csm_channel.c:48-110 | Every channel after every event: linked by a packet, freed by a disconnection, the first free one taken by a connection, otherwise unchanged |
| Replies.RunReplies | src/csm_channel.c:76-109 | Over all runs from idle associations, a packet is served exactly when the last grant of its association has not been released since, reaches the handshake exactly when the last challenge has not, and a release is answered exactly to a request for it after such a grant |
| Replies.RunLinked | src/csm_channel.c:66-82 | Over all runs a channel is linked to nothing or to the association its access points find, and only a packet on it links it |
| Replies.ReleaseReads | src/csm_association.c:1235-1240 | The release response is the message with reason 0 |
| Hls.AuthDecrypt | src/csm_security.c:16-111 | Buffer and verdict for every control byte: additional data in front of the packet, data deciphered in place, tag compared |
| Hls.AuthEncrypt | src/csm_security.c:113-200 | Buffer, write index and verdict for every control byte: additional data in front of the packet, data enciphered in place, the index moved, the tag appended if there is room |
| Hls.SealedOnly | src/csm_security.c:159-197 | With authentication only nothing is enciphered and the tag over control byte, key and information goes directly behind the packet, or nowhere |
| Hls.EncryptedRoundTrip | src/csm_security.c:16-200 | What was enciphered without authentication is deciphered in place to what it was, and nothing behind it changes |
| Hls.EncryptedTagMisplaced | src/csm_security.c:133-197 | With encryption and authentication the last twelve octets stay in the clear and the tag lands behind a gap as long as the packet or, without room for that, nowhere, a success all the same |
| Hls.Pass3 | src/csm_channel.c:112-172 | Only a packet of 17 octets at an offset of 81 or more is looked at; offset restored, indexes not; buffer and verdict |
| Hls.Pass3Authenticates | src/csm_channel.c:112-172 | With authentication only: the octets authenticated are control byte, key and server challenge, directly before the untouched tag, the rest of the buffer unchanged, and the verdict is the comparison of the tags |
| Hls.Pass3Unchecked | src/csm_security.c:45-108 | For every other control byte the verdict does not depend on the tag |
| Hls.Pass4 | src/csm_channel.c:174-235 | Success exactly when offset + 19 is below the size; then 09 11, control byte, counter and tag stand at the offset, the tag being over control byte, key and client challenge |
| Hls.ReplyAccepted | src/csm_channel.c:112-235 | A packet carrying the tag of such a reply for the challenge sent is what pass 3 accepts |
| Hls.ControlBits | src/csm_security.h:34-45 | Bit 4 of the control byte asks for authentication and bit 5 for encryption |
| Hls.DecryptedInFull | src/csm_security.c:16-111 | What decryption leaves for every control byte: which octets are deciphered under which additional data, and the verdict |
| Hls.EncryptedRefused | src/csm_security.c:113-190 | Encryption is refused exactly when authentication is asked for and there is nothing, or with encryption no more than twelve octets, to authenticate; a refused packet is enciphered all the same |

## Left out

- Hdlc.HdlcContext.Encode: frames of 65536 bytes and more, where the 16-bit index wraps, and the buffer contents for an address size other than 1, 2 or 4 are not modelled.
- Hdlc.HdlcContext.Decode: asks for 15 bytes of memory behind the buffer pointer, since the code reads the longest header before it compares sizes; the negotiation fields an information field of a UA or SNRM frame may change are not part of this model.
- Hdlc.HdlcContext.EncodeData: frames of 65536 bytes and more, as for Encode.
- Hdlc.HdlcContext.EncodeRr: the buffer contents for an address size other than 1, 2 or 4.
- Gcm.GcmContext.constructor: the lookup of the cipher and its errors, as the cipher is any function on blocks.
- CipherLayer.CipherContext.constructor: the errors of setup, setkey and set_iv.
- CipherLayer.CipherContext.CryptCbc: output over the input, as both are values.
- Cmac.CmacContext.Starts: the errors for a missing key or cipher.
- Hls.AuthDecrypt: packets with fewer than five unread octets, whose control byte and counter the code leaves unset.
- Hls.Pass4: challenges of 8 to 64 octets, what the decoder of requests lets through, and a packet with both indexes at 0; a stale size below 7 moves the offset the other way.
- PacketArray.CsmArray.WriteBuff: sizes so large that the sum with the indexes wraps in 32 bits, for which the code copies past the buffer, are not modelled.
- PacketArray.CsmArray.ReadU8: an octet that cannot be read is 0 in the model and left untouched in the code; the same holds for ReadU16 and ReadU32.
- Association.Stack.Execute: the read index moved by the decoder and the services is not modelled, nor is the packet after a service answers.
- Acse.Encode: what a failing encoder leaves in the packet is not stated.
- Cmac.CmacContext.Update: input and state are byte strings; the error returns of the underlying cipher cannot occur in the model.
- CipherLayer.CipherContext.Update: input and output are values; for in-place use only the refusal is modelled.
- Hash.HashContext.Finish: the result is the state words; storing them as bytes, and the truncation of SHA-224, are not modelled.
- Clock.ScalarToYmd: numbers are unbounded; years past 14699, where a 32-bit product overflows, are not.
- Clock.ToDatetime: broken-down times with negative month or day, which wrap in 32-bit arithmetic, are not modelled; the day count of AddTime is signed where the code stores it unsigned.
- csm_asso_decoder and the field decoders: their outcome is an arbitrary input of the state machine.
- src/csm_services.c: the services are an arbitrary answer.
- The compression functions of MD5, SHA-1 and SHA-256, DES, Camellia and CCM.
- AESNI and PadLock branches, CFB and CTR modes, CBC over misaligned buffers.
- hdlc_decode_info_field and hdlc_encode_snrm: parsing of negotiation parameters.
- clk_is_dst, clk_weeknum, moonphase and the COSEM date and time codecs.
- csm_array_read_buff and csm_array_init on an array in use; csm_ber_read_u8 and object identifiers.
- Sockets, serial ports and printing; of the self-tests, all vectors but the CMAC subkeys of AesVector.
