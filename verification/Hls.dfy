// The high-level security handshake of src/csm_channel.c over src/csm_security.c: packets are
// rebuilt and authenticated in place, in front of a tag that stays where it is.
module Hls {
  import opened Memory
  import opened PacketArray

  const MAX_HLS_SIZE := 81

  datatype SecResult = Success | AuthFailure | Error

  // The authentication key, the own title and the authenticated cipher of the platform: the
  // deciphered or enciphered data, and the tag, for a direction, an IV, the additional data and
  // the data.
  datatype Hal = Hal(ak: seq<Octet>, own: seq<Octet>,
                     crypt: (bool, seq<Octet>, seq<Octet>, seq<Octet>) -> seq<Octet>,
                     tag: (bool, seq<Octet>, seq<Octet>, seq<Octet>) -> seq<Octet>)

  ghost predicate Works(h: Hal)
  {
    && |h.ak| == 16 && |h.own| == 8
    && (forall enc, iv, aad, data :: |h.crypt(enc, iv, aad, data)| == |data|)
    && (forall enc, iv, aad, data :: |h.tag(enc, iv, aad, data)| == 16)
  }

  function Crypt(h: Hal, enc: bool, iv: seq<Octet>, aad: seq<Octet>, data: seq<Octet>): (r: seq<Octet>)
    requires Works(h)
    ensures |r| == |data|
  {
    h.crypt(enc, iv, aad, data)
  }

  function Tag(h: Hal, enc: bool, iv: seq<Octet>, aad: seq<Octet>, data: seq<Octet>): (r: seq<Octet>)
    requires Works(h)
    ensures |r| == 16
  {
    h.tag(enc, iv, aad, data)
  }

  lemma WorksKey(h: Hal)
    requires Works(h)
    ensures |h.ak| == 16 && |h.own| == 8
  {}

  // The bits of the security control byte.
  predicate Authenticates(sc: Octet) { sc / 0x10 % 2 == 1 }

  predicate Enciphers(sc: Octet) { sc / 0x20 % 2 == 1 }

  // The control byte and the authentication key in front of the data at d.
  function WithAad(h: Hal, m: seq<Octet>, d: nat, sc: Octet): (r: seq<Octet>)
    requires Works(h) && 17 <= d <= |m|
    ensures |r| == |m|
  {
    Stored(m, d - 17, [sc] + h.ak)
  }

  // How many octets are deciphered, how many are authenticated in front of them, whether a tag
  // is compared, and whether the size is refused.
  datatype Plan = Plan(data: nat, aad: nat, checked: bool, refused: bool)

  function PlanOf(sc: Octet, n: nat): (p: Plan)
    ensures p.data <= n && p.aad <= 17 + n && (p.checked ==> n >= 12)
  {
    if Enciphers(sc) then
      if !Authenticates(sc) then Plan(n, 0, false, false)
      else if n > 12 then Plan(n - 12, 17, false, false) else Plan(n, 0, false, true)
    else if Authenticates(sc) then
      if n >= 12 then Plan(0, 17 + (n - 12), true, false) else Plan(0, 0, false, true)
    else Plan(0, 0, false, false)
  }

  // The cipher run over the data at d, in place, and its tag.
  function Ciphered(h: Hal, enc: bool, iv: seq<Octet>, m: seq<Octet>, d: nat, sc: Octet, data: nat,
                    aad: nat): (r: (seq<Octet>, seq<Octet>))
    requires Works(h) && 17 <= d && d + data <= |m| && d - 17 + aad <= |m|
    ensures |r.0| == |m| && |r.1| == 16
  {
    var w := WithAad(h, m, d, sc);
    var a, x := w[d - 17..d - 17 + aad], w[d..d + data];
    (Stored(w, d, Crypt(h, enc, iv, a, x)), Tag(h, enc, iv, a, x))
  }

  // csm_sec_auth_decrypt on n octets of information and tag at d.
  function Decrypted(h: Hal, iv: seq<Octet>, m: seq<Octet>, d: nat, sc: Octet, n: nat): (r: (seq<Octet>, SecResult))
    requires Works(h) && 17 <= d && d + n <= |m|
    ensures |r.0| == |m|
  {
    var p := PlanOf(sc, n);
    var (out, tag) := Ciphered(h, false, iv, m, d, sc, p.data, p.aad);
    (out,
     if p.refused then Error
     else if p.checked && tag[..12] != out[d + n - 12..d + n] then AuthFailure
     else Success)
  }

  method AuthDecrypt(a: CsmArray, title: seq<Octet>, h: Hal) returns (res: SecResult)
    requires a.Valid() && Works(h) && |a.Unread()| >= 5 && a.offset + a.rd >= 12
    modifies a`rd, a.buff
    ensures a.Valid() && a.rd == old(a.rd) + 5
    ensures var u, d := old(a.Unread()), a.offset + old(a.rd) + 5;
            (a.buff[..], res) == Decrypted(h, title + u[1..5], old(a.buff[..]), d, u[0], |u| - 5)
  {
    hide Decrypted, Be32, Value32;
    ghost var u := a.Unread();
    var _, sc := a.ReadU8();
    assert u[1..][..4] == u[1..5];
    var _, ic := a.ReadU32();
    Be32OfValue(u[1..5]);
    res := Process(a, title + Be32(ic), sc, h);
  }

  // The sizes and the first verdict.
  method Sizes(sc: Octet, unread: nat) returns (dataSize: nat, aadSize: nat, checked: bool, res: SecResult)
    ensures PlanOf(sc, unread) == Plan(dataSize, aadSize, checked, res == Error) && res != AuthFailure
  {
    hide Authenticates, Enciphers;
    dataSize, aadSize, checked, res := 0, 0, false, Success;
    if Enciphers(sc) {
      dataSize := unread;
      if Authenticates(sc) {
        if unread > 12 {
          dataSize, aadSize := dataSize - 12, 17;
        } else {
          res := Error;
        }
      }
    } else if Authenticates(sc) {
      if unread >= 12 {
        aadSize := 17 + (unread - 12);
        checked := true;
      } else {
        res := Error;
      }
    }
  }

  function UnreadSize(rd: nat, wr: nat): (n: nat)
    ensures n == if wr > rd then wr - rd else 0
  {
    if wr > rd then wr - rd else 0
  }

  lemma UnreadLength(a: CsmArray)
    requires a.Valid()
    ensures |a.Unread()| == UnreadSize(a.rd, a.wr)
  {}

  lemma UnreadSlice(a: CsmArray)
    requires a.Valid() && a.rd < a.wr
    ensures a.Unread() == a.buff[..][a.offset + a.rd..a.offset + a.wr]
  {}

  // The control byte and the key are laid in front of the data, which is ciphered in place.
  method RunCipher(buff: array<Octet>, enc: bool, iv: seq<Octet>, d: nat, sc: Octet, dataSize: nat, aadSize: nat,
                   h: Hal)
    returns (tag: seq<Octet>)
    requires Works(h) && 17 <= d && d + dataSize <= buff.Length && d - 17 + aadSize <= buff.Length
    modifies buff
    ensures (buff[..], tag) == Ciphered(h, enc, iv, old(buff[..]), d, sc, dataSize, aadSize)
  {
    hide Works, Crypt, Tag, Stored;
    WorksKey(h);
    StoreAt(buff, d - 17, [sc] + h.ak);
    var aad, data := buff[..][d - 17..d - 17 + aadSize], buff[..][d..d + dataSize];
    tag := Tag(h, enc, iv, aad, data);
    StoreAt(buff, d, Crypt(h, enc, iv, aad, data));
  }

  // The rest, once the header is read.
  method Process(a: CsmArray, iv: seq<Octet>, sc: Octet, h: Hal) returns (res: SecResult)
    requires a.Valid() && Works(h) && a.offset + a.rd >= 17
    modifies a.buff
    ensures (a.buff[..], res) == Decrypted(h, iv, old(a.buff[..]), a.offset + a.rd, sc, old(|a.Unread()|))
  {
    hide Works, Ciphered, PlanOf, CsmArray.Unread;
    UnreadLength(a);
    var data := a.offset + a.rd;
    var unread := UnreadSize(a.rd, a.wr);
    var dataSize, aadSize, checked;
    dataSize, aadSize, checked, res := Sizes(sc, unread);
    ghost var p := PlanOf(sc, unread);
    assert p.data == dataSize && p.aad == aadSize && p.checked == checked && p.refused == (res == Error);
    var tag := RunCipher(a.buff, false, iv, data, sc, dataSize, aadSize, h);
    if checked && res == Success {
      if tag[..12] != a.buff[..][data + unread - 12..data + unread] {
        res := AuthFailure;
      }
    }
  }

  // ----- pass 3 -----

  // The packet rebuilt in front of the tag at t: control byte, counter and challenge.
  function Rebuilt(m: seq<Octet>, t: nat, header: seq<Octet>, challenge: seq<Octet>): (r: seq<Octet>)
    requires |header| == 5 && |challenge| + 5 <= t <= |m|
    ensures |r| == |m|
  {
    Stored(m, t - |challenge| - 5, header + challenge)
  }

  function Pass3Of(h: Hal, title: seq<Octet>, m: seq<Octet>, t: nat, header: seq<Octet>,
                   challenge: seq<Octet>): (seq<Octet>, SecResult)
    requires Works(h) && |header| == 5 && |challenge| + 17 <= t && t + 12 <= |m|
  {
    Decrypted(h, title + header[1..], Rebuilt(m, t, header, challenge), t - |challenge|, header[0], |challenge| + 12)
  }

  // The indexes are left where they were in the rebuilt packet, so that they may point past the
  // end of the buffer once the offset is restored.
  method Pass3(a: CsmArray, stoc: seq<Octet>, size: nat, title: seq<Octet>, h: Hal) returns (ret: bool)
    requires a.Valid() && Works(h) && |stoc| == 64 && size <= 64
    modifies a, a.buff
    ensures a.offset == old(a.offset) && a.size == old(a.size) && a.buff == old(a.buff)
    ensures var u, t := old(a.Unread()), a.offset + old(a.rd) + 5;
            if |u| == 17 && a.offset >= MAX_HLS_SIZE then
              var (m, res) := Pass3Of(h, title, old(a.buff[..]), t, u[..5], stoc[..size]);
              a.buff[..] == m && ret == (res == Success) && a.rd == 5 && a.wr == size + 17
              && (a.Valid() <==> a.offset + size + 17 <= a.size)
            else !ret && a.buff[..] == old(a.buff[..]) && a.Valid()
  {
    hide Pass3Of, Works, Be32, Value32, CsmArray.Unread;
    ret := false;
    ghost var u := a.Unread();
    UnreadLength(a);
    var _, sc := a.ReadU8();
    assert |u| == 17 ==> u[1..][..4] == u[1..5];
    var _, ic := a.ReadU32();
    var unread := if a.wr > a.rd then a.wr - a.rd else 0;
    if unread == 12 {
      Be32OfValue(u[1..5]);
      assert [sc] + Be32(ic) == u[..5];
      if a.offset >= MAX_HLS_SIZE {
        var res := Check(a, sc, ic, stoc[..size], title, h);
        ret := res == Success;
      }
    }
  }

  // The part that works at another offset and goes back to the first.
  method Check(a: CsmArray, sc: Octet, ic: nat, challenge: seq<Octet>, title: seq<Octet>, h: Hal)
    returns (res: SecResult)
    requires a.Valid() && Works(h) && |challenge| <= 64 && ic < 0x1_0000_0000
    requires a.offset + a.rd >= |challenge| + 17 && a.offset + a.rd + 12 <= a.size
    modifies a, a.buff
    ensures a.offset == old(a.offset) && a.size == old(a.size) && a.buff == old(a.buff)
    ensures a.rd == 5 && a.wr == |challenge| + 17
    ensures a.Valid() <==> a.offset + |challenge| + 17 <= a.size
    ensures (a.buff[..], res) == Pass3Of(h, title, old(a.buff[..]), old(a.offset + a.rd), [sc] + Be32(ic), challenge)
  {
    hide Decrypted, Works, Be32, Rebuilt, CsmArray.Unread, CsmArray.Written;
    ghost var m, t, header := a.buff[..], a.offset + a.rd, [sc] + Be32(ic);
    var offset := a.offset;
    a.offset := offset + a.rd - (5 + |challenge|);
    a.rd, a.wr := 0, 0;
    Rebuild(a, sc, ic, challenge);
    RebuiltReads(m, t, header, challenge);
    UnreadSlice(a);
    res := AuthDecrypt(a, title, h);
    a.offset := offset;
  }

  lemma RebuiltReads(m: seq<Octet>, t: nat, header: seq<Octet>, challenge: seq<Octet>)
    requires |header| == 5 && |challenge| + 5 <= t && t + 12 <= |m|
    ensures var r := Rebuilt(m, t, header, challenge);
            var u := r[t - |challenge| - 5..t + 12];
            && |u| == |challenge| + 17 && u[0] == header[0] && u[1..5] == header[1..]
            && r[t - |challenge|..t] == challenge && r[t..] == m[t..]
            && r[..t - |challenge| - 5] == m[..t - |challenge| - 5]
  {
    hide Stored;
    var r, at, s := Rebuilt(m, t, header, challenge), t - |challenge| - 5, header + challenge;
    StoredReads(m, at, s);
    Sliced(r, at, t, 1, 5);
    Sliced(r, at, t, 5, |s|);
    Sliced(r, at, t + 12, 1, 5);
    assert r[at] == r[at..t][0];
    assert s[1..5] == header[1..] && s[5..|s|] == challenge;
  }

  // Main result: with authentication only, what is authenticated is the control byte, the key
  // and the challenge sent to the client, laid out directly before the tag; the tag and all the
  // rest of the buffer stay as they were; and the verdict is the comparison of the tags.
  lemma Pass3Authenticates(h: Hal, title: seq<Octet>, m: seq<Octet>, t: nat, header: seq<Octet>, challenge: seq<Octet>)
    requires Works(h) && |header| == 5 && |challenge| + 17 <= t && t + 12 <= |m|
    requires Authenticates(header[0]) && !Enciphers(header[0])
    ensures var (out, res) := Pass3Of(h, title, m, t, header, challenge);
            var b, aad := t - |challenge|, [header[0]] + h.ak + challenge;
            && |out| == |m| && b >= 17
            && out[b - 17..t] == aad && out[..b - 17] == m[..b - 17] && out[t..] == m[t..]
            && res == if Tag(h, false, title + header[1..], aad, [])[..12] == m[t..t + 12] then Success else AuthFailure
  {
    hide Works, Crypt, Tag, Authenticates, Enciphers, Stored, Rebuilt;
    WorksKey(h);
    var b, r := t - |challenge|, Rebuilt(m, t, header, challenge);
    RebuiltReads(m, t, header, challenge);
    var w, key := WithAad(h, r, b, header[0]), [header[0]] + h.ak;
    StoredReads(r, b - 17, key);
    assert w[b..t] == w[b..][..t - b] == r[b..][..t - b] == r[b..t];
    assert w[b - 17..t] == w[b - 17..b] + w[b..t];
    assert w[t..] == w[b..][t - b..] == r[b..][t - b..] == r[t..];
    assert w[..b - 17] == r[..b - 17] == r[..b - 5][..b - 17] == m[..b - 5][..b - 17];
    StoredNone(w, b);
    assert w[b..b] == [];
    assert w[t..t + 12] == w[t..][..12] == m[t..][..12] == m[t..t + 12];
  }

  // In every other case the verdict does not look at the tag.
  lemma Pass3Unchecked(h: Hal, title: seq<Octet>, m: seq<Octet>, t: nat, header: seq<Octet>, challenge: seq<Octet>)
    requires Works(h) && |header| == 5 && |challenge| + 17 <= t && t + 12 <= |m|
    requires !Authenticates(header[0]) || Enciphers(header[0])
    ensures Pass3Of(h, title, m, t, header, challenge).1
            == if Authenticates(header[0]) && challenge == [] then Error else Success
  {
    hide Crypt, Tag, Authenticates, Enciphers, Stored, Rebuilt, WithAad;
  }

  // The fake packet, its tag already in the buffer.
  method Rebuild(a: CsmArray, sc: Octet, ic: nat, challenge: seq<Octet>)
    requires a.Valid() && a.rd == a.wr == 0 && ic < 0x1_0000_0000 && |challenge| <= 64
    requires a.offset + |challenge| + 17 <= a.size
    modifies a`wr, a.buff
    ensures a.Valid() && a.wr == |challenge| + 17
    ensures a.buff[..] == Rebuilt(old(a.buff[..]), a.offset + 5 + |challenge|, [sc] + Be32(ic), challenge)
  {
    hide Be32, Stored, CsmArray.Written, CsmArray.Unread;
    ghost var m, at := a.buff[..], a.offset;
    var _ := a.WriteU8(sc);
    var _ := a.WriteU32(ic);
    StoredTwice(m, at, [sc], Be32(ic));
    var _ := a.WriteBuff(challenge);
    StoredTwice(m, at, [sc] + Be32(ic), challenge);
    var _ := a.WriterJump(12);
  }

  // ----- pass 4 -----

  // What is enciphered and authenticated, whether a tag is added, and whether the size is refused.
  function SealPlanOf(sc: Octet, n: nat): (p: Plan)
    ensures p.data <= n && p.aad <= 17 + n && !(p.checked && p.refused)
  {
    if Enciphers(sc) then
      if !Authenticates(sc) then Plan(n, 0, false, false)
      else if n > 12 then Plan(n - 12, 17, true, false) else Plan(n, 0, false, true)
    else if Authenticates(sc) then
      if n > 0 then Plan(0, 17 + n, true, false) else Plan(0, 0, false, true)
    else Plan(0, 0, false, false)
  }

  // csm_sec_auth_encrypt on a packet at offset with its two indexes: the buffer, the write index
  // and the verdict. The index jumps over the enciphered octets from the end of the packet, and
  // whether the tag found room is not reported.
  function Encrypted(h: Hal, iv: seq<Octet>, m: seq<Octet>, size: nat, offset: nat, rd: nat, wr: nat,
                     sc: Octet): (r: (seq<Octet>, nat, SecResult))
    requires Works(h) && 17 <= offset + rd <= size && offset + wr <= size <= |m|
    ensures |r.0| == |m|
  {
    var d, n := offset + rd, UnreadSize(rd, wr);
    var p := SealPlanOf(sc, n);
    var (out, tag), end := Ciphered(h, true, iv, m, d, sc, p.data, p.aad), Min(wr + p.data, size - offset);
    if p.checked && offset + end + 12 <= size then
      (Stored(out, offset + end, tag[..12]), end + 12, Success)
    else
      (out, end, if p.refused then Error else Success)
  }

  method SealSizes(sc: Octet, unread: nat) returns (dataSize: nat, aadSize: nat, tagged: bool, res: SecResult)
    ensures SealPlanOf(sc, unread) == Plan(dataSize, aadSize, tagged, res == Error) && res != AuthFailure
  {
    hide Authenticates, Enciphers;
    dataSize, aadSize, tagged, res := 0, 0, false, Success;
    if Enciphers(sc) {
      dataSize := unread;
      if Authenticates(sc) {
        if unread > 12 {
          dataSize, aadSize, tagged := dataSize - 12, 17, true;
        } else {
          res := Error;
        }
      }
    } else if Authenticates(sc) {
      if unread > 0 {
        aadSize, tagged := 17 + unread, true;
      } else {
        res := Error;
      }
    }
  }

  method AuthEncrypt(a: CsmArray, title: seq<Octet>, sc: Octet, ic: nat, h: Hal) returns (res: SecResult)
    requires a.Valid() && Works(h) && a.offset + a.rd >= 17 && ic < 0x1_0000_0000
    modifies a`wr, a.buff
    ensures a.Valid()
    ensures (a.buff[..], a.wr, res)
            == Encrypted(h, title + Be32(ic), old(a.buff[..]), a.size, a.offset, a.rd, old(a.wr), sc)
  {
    hide Works, Ciphered, SealPlanOf, Stored, Be32, CsmArray.Written, CsmArray.Unread;
    var data := a.offset + a.rd;
    var unread := UnreadSize(a.rd, a.wr);
    var dataSize, aadSize, tagged;
    dataSize, aadSize, tagged, res := SealSizes(sc, unread);
    ghost var p := SealPlanOf(sc, unread);
    assert p.data == dataSize && p.aad == aadSize && p.checked == tagged && p.refused == (res == Error);
    var tag := RunCipher(a.buff, true, title + Be32(ic), data, sc, dataSize, aadSize, h);
    var _ := a.WriterJump(dataSize);
    if tagged && res == Success {
      var _ := a.WriteBuff(tag[..12]);
    }
  }

  // Authentication only: the tag over the key and the packet goes behind the packet.
  lemma SealedOnly(h: Hal, iv: seq<Octet>, m: seq<Octet>, size: nat, offset: nat, rd: nat, wr: nat, sc: Octet)
    requires Works(h) && 17 <= offset + rd && rd < wr && offset + wr <= size <= |m|
    requires Authenticates(sc) && !Enciphers(sc)
    ensures var d, end := offset + rd, offset + wr;
            var w := WithAad(h, m, d, sc);
            var tag := Tag(h, true, iv, w[d - 17..end], []);
            Encrypted(h, iv, m, size, offset, rd, wr, sc)
            == if end + 12 <= size then (Stored(w, end, tag[..12]), wr + 12, Success) else (w, wr, Success)
  {
    hide Works, Crypt, Tag, Authenticates, Enciphers, WithAad;
    var d := offset + rd;
    var w := WithAad(h, m, d, sc);
    assert w[d..d] == [];
    StoredNone(w, d);
  }

  // Main result: what was enciphered without authentication, under a cipher whose directions are
  // inverse, is deciphered in place to what it was.
  lemma EncryptedRoundTrip(h: Hal, iv: seq<Octet>, m: seq<Octet>, size: nat, offset: nat, rd: nat, wr: nat, sc: Octet)
    requires Works(h) && 17 <= offset + rd && rd < wr && offset + wr <= size <= |m|
    requires Enciphers(sc) && !Authenticates(sc)
    requires forall x :: Crypt(h, false, iv, [], Crypt(h, true, iv, [], x)) == x
    ensures var d, end := offset + rd, offset + wr;
            var sealed := Encrypted(h, iv, m, size, offset, rd, wr, sc);
            var plain := Decrypted(h, iv, sealed.0, d, sc, wr - rd);
            && sealed.2 == plain.1 == Success
            && sealed.0[d..end] == Crypt(h, true, iv, [], m[d..end])
            && plain.0[d..end] == m[d..end] && plain.0[end..] == m[end..]
  {
    hide Works, Crypt, Tag, Authenticates, Enciphers, Stored;
    WorksKey(h);
    var d, n := offset + rd, wr - rd;
    CipheredAt(h, true, iv, m, d, sc, n);
    var out := Ciphered(h, true, iv, m, d, sc, n, 0).0;
    CipheredAt(h, false, iv, out, d, sc, n);
    assert out[d..][..n] == out[d..d + n];
  }

  lemma CipheredAt(h: Hal, enc: bool, iv: seq<Octet>, m: seq<Octet>, d: nat, sc: Octet, n: nat)
    requires Works(h) && 17 <= d && d + n <= |m|
    ensures var out := Ciphered(h, enc, iv, m, d, sc, n, 0).0;
            out[d..d + n] == Crypt(h, enc, iv, [], m[d..d + n]) && out[d + n..] == m[d + n..]
  {
    hide Works, Crypt, Tag, Stored;
    WorksKey(h);
    var w := WithAad(h, m, d, sc);
    StoredKeeps(m, d - 17, [sc] + h.ak, d, d + n);
    StoredKeeps(m, d - 17, [sc] + h.ak, d + n, |m|);
    assert w[d - 17..d - 17] == [];
    StoredReads(w, d, Crypt(h, enc, iv, [], m[d..d + n]));
    assert w[d + n..] == w[d + n..|m|] && m[d + n..] == m[d + n..|m|];
  }

  // With both services on, the write index jumps from the end of the packet, and the last twelve
  // octets of the packet stay in the clear after the ciphertext. The tag lands behind a gap as
  // long as the packet or, without room for that, nowhere, which is reported as a success too.
  lemma EncryptedTagMisplaced(h: Hal, iv: seq<Octet>, m: seq<Octet>, size: nat, offset: nat, rd: nat, wr: nat,
                              sc: Octet)
    requires Works(h) && 17 <= offset + rd && offset + wr <= size <= |m| && rd + 12 < wr
    requires Enciphers(sc) && Authenticates(sc)
    ensures var d, n := offset + rd, wr - rd;
            var k, aad := n - 12, [sc] + h.ak;
            var (out, end, res) := Encrypted(h, iv, m, size, offset, rd, wr, sc);
            && res == Success && |aad| == 17
            && out[d..d + k] == Crypt(h, true, iv, aad, m[d..d + k])
            && if offset + wr + n <= size then
                 && end == wr + n
                 && out[d + k..d + n + k] == m[d + k..d + n + k]
                 && out[d + n + k..d + n + n] == Tag(h, true, iv, aad, m[d..d + k])[..12]
                 && out[d + n + n..] == m[d + n + n..]
               else end == Min(wr + k, size - offset) && out[d + k..] == m[d + k..]
  {
    hide Works, Crypt, Tag, Authenticates, Enciphers, Stored, WithAad;
    WorksKey(h);
    var d, n, aad := offset + rd, wr - rd, [sc] + h.ak;
    var k := n - 12;
    EncipheredHead(h, iv, m, d, sc, k);
    var mid := Stored(WithAad(h, m, d, sc), d, Crypt(h, true, iv, aad, m[d..d + k]));
    if offset + wr + n <= size {
      TagBehindGap(m, mid, d, k, n, Tag(h, true, iv, aad, m[d..d + k])[..12]);
    }
  }

  // The additional data and the first k octets, enciphered in place.
  lemma EncipheredHead(h: Hal, iv: seq<Octet>, m: seq<Octet>, d: nat, sc: Octet, k: nat)
    requires Works(h) && 17 <= d && d + k <= |m|
    ensures var w, aad := WithAad(h, m, d, sc), [sc] + h.ak;
            var c := Crypt(h, true, iv, aad, m[d..d + k]);
            && |aad| == 17 && w[d - 17..d] == aad && w[d..d + k] == m[d..d + k]
            && Stored(w, d, c)[d..d + k] == c && Stored(w, d, c)[d + k..] == m[d + k..]
  {
    hide Works, Crypt, Stored;
    WorksKey(h);
    var w, aad := WithAad(h, m, d, sc), [sc] + h.ak;
    StoredReads(m, d - 17, aad);
    StoredKeeps(m, d - 17, aad, d, d + k);
    StoredKeeps(m, d - 17, aad, d + k, |m|);
    StoredReads(w, d, Crypt(h, true, iv, aad, m[d..d + k]));
    assert w[d + k..] == w[d + k..|m|] && m[d + k..] == m[d + k..|m|];
  }

  lemma TagBehindGap(m: seq<Octet>, mid: seq<Octet>, d: nat, k: nat, n: nat, tag: seq<Octet>)
    requires |mid| == |m| && d + n + k + |tag| <= |m| && mid[d + k..] == m[d + k..]
    ensures var at := d + n + k;
            var out := Stored(mid, at, tag);
            && out[d..d + k] == mid[d..d + k] && out[d + k..at] == m[d + k..at]
            && out[at..at + |tag|] == tag && out[at + |tag|..] == m[at + |tag|..]
  {
    hide Stored;
    var at := d + n + k;
    StoredReads(mid, at, tag);
    StoredKeeps(mid, at, tag, d, d + k);
    StoredKeeps(mid, at, tag, d + k, at);
    assert mid[d + k..at] == mid[d + k..][..n] && m[d + k..at] == m[d + k..][..n];
    assert mid[at + |tag|..] == mid[d + k..][n + |tag|..] && m[at + |tag|..] == m[d + k..][n + |tag|..];
  }

  const COUNTER := 0x01234567

  lemma CounterOctets()
    ensures Be32(COUNTER) == [0x01, 0x23, 0x45, 0x67]
    ensures [9, 17, 0x10] + Be32(COUNTER) == [9, 17, 0x10, 0x01, 0x23, 0x45, 0x67]
  {}

  // The header of the reply, on top of the end of the challenge, and the jump over the tag.
  method Header(a: CsmArray, sc: Octet, ic: nat) returns (valid: bool)
    requires a.Valid() && a.wr == 0 && ic < 0x1_0000_0000
    modifies a`wr, a.buff
    ensures a.Valid() && valid == (a.offset + 19 < a.size)
    ensures valid ==> a.wr == 19 && a.buff[..] == Stored(old(a.buff[..]), a.offset, [9, 17, sc] + Be32(ic))
  {
    hide Be32, Stored, CsmArray.Written, CsmArray.Unread;
    ghost var m, at := a.buff[..], a.offset;
    valid := a.WriteU8(9);
    if valid {
      valid := a.WriteU8(17);
      if valid {
        StoredTwice(m, at, [9], [17]);
        valid := a.WriteU8(sc);
        if valid {
          StoredTwice(m, at, [9] + [17], [sc]);
          valid := a.WriteU32(ic);
          if valid {
            assert [9] + [17] + [sc] == [9, 17, sc];
            StoredTwice(m, at, [9, 17, sc], Be32(ic));
            valid := a.WriterJump(12);
          }
        }
      }
    }
  }

  // The reply to the client's challenge.
  method Pass4(a: CsmArray, ctos: seq<Octet>, size: nat, h: Hal) returns (ret: bool)
    requires a.Valid() && a.rd == a.wr == 0 && Works(h) && |ctos| == 64 && 8 <= size <= 64
    modifies a, a.buff
    ensures a.offset == old(a.offset) && a.size == old(a.size) && a.buff == old(a.buff) && a.Valid()
    ensures ret == (a.offset >= MAX_HLS_SIZE && a.offset + 19 < a.size)
    ensures ret ==> a.rd == 0 && a.wr == 19
    ensures ret ==> a.Written() == [9, 17, 0x10, 0x01, 0x23, 0x45, 0x67]
                      + Tag(h, true, h.own + [0x01, 0x23, 0x45, 0x67], [0x10] + h.ak + ctos[..size], [])[..12]
    ensures ret ==> var b := a.offset - (size - 7);
                    && b >= 17
                    && a.buff[..b - 17] == old(a.buff[..b - 17])
                    && a.buff[a.offset + 19..] == old(a.buff[a.offset + 19..])
                    && a.buff[b - 17..a.offset] == ([0x10] + h.ak + ctos[..size])[..size + 10]
  {
    hide Works, Tag, Be32, ReplyBuffer;
    CounterOctets();
    ret := false;
    if a.offset >= MAX_HLS_SIZE {
      ghost var m := a.buff[..];
      ret := Reply(a, ctos[..size], h);
      if ret {
        ReplyLaidOut(h, m, a.offset, ctos[..size]);
      }
    }
  }

  // The part that works at another offset and goes back to the first.
  method Reply(a: CsmArray, challenge: seq<Octet>, h: Hal) returns (ret: bool)
    requires a.Valid() && a.rd == a.wr == 0 && Works(h) && 8 <= |challenge| <= 64 && a.offset >= MAX_HLS_SIZE
    modifies a, a.buff
    ensures a.offset == old(a.offset) && a.size == old(a.size) && a.buff == old(a.buff) && a.Valid()
    ensures ret == (a.offset + 19 < a.size)
    ensures ret ==> a.rd == 0 && a.wr == 19 && a.buff[..] == ReplyBuffer(h, old(a.buff[..]), a.offset, challenge)
  {
    hide Works, Tag, WithAad, Be32, Stored, Encrypted, Authenticates, Enciphers, CsmArray.Written, CsmArray.Unread;
    ReplyControl();
    var offset := a.offset;
    a.offset := offset - (|challenge| - 5 - 2);
    var _ := a.WriteBuff(challenge);
    if a.wr > 0 {
      SealedOnly(h, h.own + Be32(COUNTER), a.buff[..], a.size, a.offset, 0, a.wr, 0x10);
    }
    var res := AuthEncrypt(a, h.own, 0x10, COUNTER, h);
    a.offset := offset;
    a.wr := 0;
    var valid := Header(a, 0x10, COUNTER);
    ret := res == Success && valid;
  }

  // The control byte of the reply: authentication only.
  lemma ReplyControl()
    ensures Authenticates(0x10) && !Enciphers(0x10)
  {}

  // The challenge before the reply, the key in front of it, the tag behind it, and the header
  // on top of its end.
  function ReplyBuffer(h: Hal, m: seq<Octet>, offset: nat, challenge: seq<Octet>): (r: seq<Octet>)
    requires Works(h) && MAX_HLS_SIZE <= offset && 8 <= |challenge| <= 64 && offset + 19 < |m|
    ensures |r| == |m|
  {
    var b := offset - (|challenge| - 7);
    var w := WithAad(h, Stored(m, b, challenge), b, 0x10);
    var tag := Tag(h, true, h.own + Be32(COUNTER), w[b - 17..offset + 7], [])[..12];
    Stored(Stored(w, offset + 7, tag), offset, [9, 17, 0x10] + Be32(COUNTER))
  }

  // The buffer of the reply, from the stores that make it.
  lemma ReplyLaidOut(h: Hal, m: seq<Octet>, offset: nat, challenge: seq<Octet>)
    requires Works(h) && MAX_HLS_SIZE <= offset && 8 <= |challenge| <= 64 && offset + 19 < |m|
    ensures var b, aad := offset - (|challenge| - 7), [0x10] + h.ak + challenge;
            var tag := Tag(h, true, h.own + Be32(COUNTER), aad, [])[..12];
            var out := ReplyBuffer(h, m, offset, challenge);
            && out[offset..offset + 19] == [9, 17, 0x10] + Be32(COUNTER) + tag
            && out[..b - 17] == m[..b - 17] && out[offset + 19..] == m[offset + 19..]
            && out[b - 17..offset] == aad[..|challenge| + 10]
  {
    hide Works, Tag, Be32, Stored;
    WorksKey(h);
    var b, key, aad := offset - (|challenge| - 7), [0x10] + h.ak, [0x10] + h.ak + challenge;
    var w := WithAad(h, Stored(m, b, challenge), b, 0x10);
    StoredBefore(m, b - 17, key, challenge);
    StoredReads(m, b - 17, aad);
    var header, tag := [9, 17, 0x10] + Be32(COUNTER), Tag(h, true, h.own + Be32(COUNTER), aad, [])[..12];
    StoredBefore(w, offset, header, tag);
    StoredReads(w, offset, header + tag);
    var out := ReplyBuffer(h, m, offset, challenge);
    assert out == Stored(w, offset, header + tag);
    assert out[..b - 17] == out[..offset][..b - 17] == w[..offset][..b - 17] == w[..b - 17];
    assert out[b - 17..offset] == out[..offset][b - 17..] == w[..offset][b - 17..]
           == w[b - 17..offset + 7][..|challenge| + 10];
    assert w[offset + 19..] == w[offset + 7..][12..] == m[offset + 7..][12..] == m[offset + 19..];
  }

  // Main result: a packet carrying the tag of a reply made for the challenge that was sent is
  // what pass 3 accepts, when both sides compute the same tag.
  lemma ReplyAccepted(h: Hal, peer: Hal, m: seq<Octet>, t: nat, challenge: seq<Octet>)
    requires Works(h) && Works(peer) && |challenge| + 17 <= t && t + 12 <= |m|
    requires peer.ak == h.ak
    requires forall iv, aad :: Tag(peer, true, iv, aad, []) == Tag(h, false, iv, aad, [])
    ensures var header := [0x10] + Be32(COUNTER);
            var tag := Tag(peer, true, peer.own + Be32(COUNTER), [0x10] + peer.ak + challenge, [])[..12];
            Pass3Of(h, peer.own, m, t, header, challenge).1 == if m[t..t + 12] == tag then Success else AuthFailure
  {
    hide Works, Tag, Be32, Pass3Of;
    var header := [0x10] + Be32(COUNTER);
    assert header[1..] == Be32(COUNTER);
    assert Authenticates(header[0]) && !Enciphers(header[0]);
    Pass3Authenticates(h, peer.own, m, t, header, challenge);
  }

  // ----- every control byte -----

  // Bit 4 asks for authentication, bit 5 for encryption.
  lemma ControlBits(sc: Octet)
    ensures Authenticates(sc) <==> sc % 0x20 >= 0x10
    ensures Enciphers(sc) <==> sc % 0x40 >= 0x20
  {}

  // The cipher run over k octets at d with the control byte and the key as additional data.
  lemma CipheredWithKey(h: Hal, enc: bool, iv: seq<Octet>, m: seq<Octet>, d: nat, sc: Octet, k: nat)
    requires Works(h) && 17 <= d && d + k <= |m|
    ensures var (out, tag) := Ciphered(h, enc, iv, m, d, sc, k, 17);
            var aad := [sc] + h.ak;
            && out[d..d + k] == Crypt(h, enc, iv, aad, m[d..d + k]) && out[d + k..] == m[d + k..]
            && tag == Tag(h, enc, iv, aad, m[d..d + k])
  {
    hide Works, Crypt, Tag, Stored;
    WorksKey(h);
    var w, aad := WithAad(h, m, d, sc), [sc] + h.ak;
    StoredReads(m, d - 17, aad);
    StoredKeeps(m, d - 17, aad, d, d + k);
    StoredKeeps(m, d - 17, aad, d + k, |m|);
    assert w[d - 17..d] == aad && w[d..d + k] == m[d..d + k];
    StoredReads(w, d, Crypt(h, enc, iv, aad, m[d..d + k]));
    assert w[d + k..] == w[d + k..|m|] && m[d + k..] == m[d + k..|m|];
  }

  // The cipher run over nothing, with n octets of information behind the key as additional data.
  lemma AuthenticatedAt(h: Hal, enc: bool, iv: seq<Octet>, m: seq<Octet>, d: nat, sc: Octet, n: nat)
    requires Works(h) && 17 <= d && d + n <= |m|
    ensures var (out, tag) := Ciphered(h, enc, iv, m, d, sc, 0, 17 + n);
            out[d..] == m[d..] && tag == Tag(h, enc, iv, [sc] + h.ak + m[d..d + n], [])
  {
    hide Works, Crypt, Tag, Stored;
    WorksKey(h);
    var w, aad := WithAad(h, m, d, sc), [sc] + h.ak;
    StoredReads(m, d - 17, aad);
    StoredKeeps(m, d - 17, aad, d, d + n);
    StoredKeeps(m, d - 17, aad, d, |m|);
    assert w[d - 17..d + n] == w[d - 17..d] + w[d..d + n] == aad + m[d..d + n];
    assert w[d..d] == [] && w[d..] == w[d..|m|] && m[d..] == m[d..|m|];
    CryptNone(h, enc, iv, w[d - 17..d + n]);
    StoredNone(w, d);
  }

  lemma CryptNone(h: Hal, enc: bool, iv: seq<Octet>, aad: seq<Octet>)
    requires Works(h)
    ensures Crypt(h, enc, iv, aad, []) == []
  {
    hide Works;
  }

  // Main result: what decryption leaves of n octets of information and tag, for every control
  // byte: which of them are deciphered under which additional data, and the verdict.
  lemma DecryptedInFull(h: Hal, iv: seq<Octet>, m: seq<Octet>, d: nat, sc: Octet, n: nat)
    requires Works(h) && 17 <= d && d + n <= |m|
    ensures var (out, res) := Decrypted(h, iv, m, d, sc, n);
            if Enciphers(sc) && Authenticates(sc) && n > 12 then
              && out[d..d + n - 12] == Crypt(h, false, iv, [sc] + h.ak, m[d..d + n - 12])
              && out[d + n - 12..] == m[d + n - 12..] && res == Success
            else if Enciphers(sc) then
              && out[d..d + n] == Crypt(h, false, iv, [], m[d..d + n]) && out[d + n..] == m[d + n..]
              && res == if Authenticates(sc) then Error else Success
            else if Authenticates(sc) && n >= 12 then
              && out[d..] == m[d..]
              && res == if Tag(h, false, iv, [sc] + h.ak + m[d..d + n - 12], [])[..12] == m[d + n - 12..d + n]
                        then Success else AuthFailure
            else out[d..] == m[d..] && res == if Authenticates(sc) then Error else Success
  {
    hide Works, Crypt, Tag, Stored, Authenticates, Enciphers, Ciphered;
    if Enciphers(sc) && Authenticates(sc) && n > 12 {
      CipheredWithKey(h, false, iv, m, d, sc, n - 12);
    } else if Enciphers(sc) {
      CipheredAt(h, false, iv, m, d, sc, n);
    } else if Authenticates(sc) && n >= 12 {
      AuthenticatedAt(h, false, iv, m, d, sc, n - 12);
      var out := Decrypted(h, iv, m, d, sc, n).0;
      assert out[d + n - 12..d + n] == out[d..][n - 12..n] && m[d + n - 12..d + n] == m[d..][n - 12..n];
    } else {
      CipheredAt(h, false, iv, m, d, sc, 0);
      assert d + 0 == d;
    }
  }

  // Encryption is refused exactly when authentication is asked for and there is nothing, or with
  // encryption no more than a tag, to authenticate; a refused packet is enciphered all the same.
  lemma EncryptedRefused(h: Hal, iv: seq<Octet>, m: seq<Octet>, size: nat, offset: nat, rd: nat, wr: nat, sc: Octet)
    requires Works(h) && 17 <= offset + rd <= size && offset + wr <= size <= |m|
    ensures var d, n := offset + rd, if wr > rd then wr - rd else 0;
            var (out, end, res) := Encrypted(h, iv, m, size, offset, rd, wr, sc);
            && res != AuthFailure
            && (res == Error <==> Authenticates(sc) && n <= if Enciphers(sc) then 12 else 0)
            && (res == Error && Enciphers(sc) ==>
                  out[d..d + n] == Crypt(h, true, iv, [], m[d..d + n]) && out[d + n..] == m[d + n..])
            && (!Enciphers(sc) && !Authenticates(sc) ==> out[d..] == m[d..] && end == wr)
  {
    hide Works, Crypt, Tag, Stored, Authenticates, Enciphers, Ciphered;
    var d, n := offset + rd, UnreadSize(rd, wr);
    CipheredAt(h, true, iv, m, d, sc, n);
    CipheredAt(h, true, iv, m, d, sc, 0);
    assert d + 0 == d;
  }
}
