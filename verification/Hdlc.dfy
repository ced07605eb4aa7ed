// hdlc/hdlc.c: the frame encoder and decoder.
module Hdlc {
  import opened Wrappers
  import opened Memory
  import opened Fcs

  const OK: int := 0
  const ERR: int := -1
  const ERR_7E: int := -2
  const ERR_FORMAT: int := -3
  const ERR_SIZE: int := -4
  const ERR_ADDR: int := -5
  const ERR_FCS: int := -6
  const ERR_HCS: int := -7

  const CLIENT: nat := 0
  const SERVER: nat := 1

  const TYPE_I: nat := 1
  const TYPE_RR: nat := 2
  const TYPE_RNR: nat := 3
  const TYPE_SNRM: nat := 4
  const TYPE_DISC: nat := 5
  const TYPE_UA: nat := 6
  const TYPE_DM: nat := 7
  const TYPE_FRMR: nat := 8
  const TYPE_UI: nat := 9

  // ----- addresses -----

  function Lo8(v: bv16): bv8 { (v & 0xff) as bv8 }

  // The three byte forms of hdlc_set_addr: only the last byte of an address is odd.
  function LastByte(v: bv16): bv8 { Lo8(v << 1) | 1 }
  function MidByte(v: bv16): bv8 { Lo8(v << 1) & 0x7e }
  function HighByte(v: bv16): bv8 { Lo8(v >> 7) & 0x7e }

  // hdlc_set_addr, empty for an unsupported size.
  function AddrBytes(size: nat, upper: bv16, lower: bv16): (r: seq<bv8>)
    ensures size in {1, 2, 4} ==> |r| == size
  {
    if size == 1 then [LastByte(upper)]
    else if size == 2 then [MidByte(upper), LastByte(lower)]
    else if size == 4 then [HighByte(upper), MidByte(upper), HighByte(lower), LastByte(lower)]
    else []
  }

  predicate OddByte(b: bv8) { b % 2 != 0 }

  // An address byte without its extension bit.
  function Value(b: bv8): bv16 { (b >> 1) as bv16 }

  // hdlc_getuint16_addr
  function Addr16(a: bv8, b: bv8): bv16
  {
    (Value(a) << 8) + Value(b)
  }

  // hdlc_decode_addr_size: up to and including the first odd byte, four bytes at most.
  function AddrSize(b: seq<bv8>, max: nat): (n: nat)
    requires max <= |b|
    ensures n <= max
    decreases max
  {
    if max == 0 then 0 else if OddByte(b[0]) then 1 else 1 + AddrSize(b[1..], max - 1)
  }

  datatype Addr = Addr(upper: bv16, lower: bv16)

  // hdlc_get_addr: the address read, or None for an unsupported size. A one-byte address leaves
  // the lower part as it was.
  function GetAddr(b: seq<bv8>, size: nat, before: Addr): Option<Addr>
    requires size <= |b|
  {
    if size == 1 then Some(before.(upper := Value(b[0])))
    else if size == 2 then Some(Addr(Value(b[0]), Value(b[1])))
    else if size == 4 then Some(Addr(Addr16(b[0], b[1]), Addr16(b[2], b[3])))
    else None
  }

  // The address values whose bits all have a place on the wire.
  predicate Representable(size: nat, upper: bv16, lower: bv16)
  {
    || (size == 1 && Low7(upper) == upper)
    || (size == 2 && Low6(upper) == upper && Low7(lower) == lower)
    || (size == 4 && Wide6(upper) == upper && Wide7(lower) == lower)
  }

  // The bits that have a place on the wire, in one byte and in two.
  function Low7(v: bv16): bv16 { v & 0x7f }
  function Low6(v: bv16): bv16 { v & 0x3f }
  function Wide6(v: bv16): bv16 { v & 0x3f3f }
  function Wide7(v: bv16): bv16 { v & 0x3f7f }

  lemma ByteForms(v: bv16)
    ensures OddByte(LastByte(v)) && !OddByte(MidByte(v)) && !OddByte(HighByte(v))
    ensures Value(LastByte(v)) == Low7(v) && Value(MidByte(v)) == Low6(v)
  {}

  lemma WideForms(v: bv16)
    ensures Addr16(HighByte(v), MidByte(v)) == Wide6(v)
    ensures Addr16(HighByte(v), LastByte(v)) == Wide7(v)
  {}

  // Where an encoded address ends, whatever follows it.
  lemma AddrEnds(size: nat, upper: bv16, lower: bv16, rest: seq<bv8>)
    requires size in {1, 2, 4} && |rest| >= 4 - size
    ensures AddrSize(AddrBytes(size, upper, lower) + rest, 4) == size
  {
    hide LastByte, MidByte, HighByte, OddByte;
    ByteForms(upper);
    ByteForms(lower);
    var b := AddrBytes(size, upper, lower) + rest;
    if size == 4 {
      assert b[1..][0] == b[1] && b[1..][1..][0] == b[2] && b[1..][1..][1..][0] == b[3];
      assert AddrSize(b[1..][1..], 2) == 2;
    }
  }

  // An address comes back exactly when every bit of it has a place on the wire.
  lemma AddrRoundTrip(size: nat, upper: bv16, lower: bv16, rest: seq<bv8>, before: Addr)
    requires size in {1, 2, 4}
    ensures var got := GetAddr(AddrBytes(size, upper, lower) + rest, size, before);
            && got.Some?
            && (got.value == Addr(upper, if size == 1 then before.lower else lower)
                <==> Representable(size, upper, lower))
  {
    hide LastByte, MidByte, HighByte, OddByte, Value, Addr16, Low7, Low6, Wide6, Wide7;
    ByteForms(upper);
    ByteForms(lower);
    WideForms(upper);
    WideForms(lower);
  }

  // ----- the control field -----

  datatype PacketType = PacketType(ptype: nat, mask: bv8, value: bv8)

  // cPACKET_TYPES.
  const PACKET_TYPES: seq<PacketType> := [
    PacketType(TYPE_I, 0x01, 0x00), PacketType(TYPE_RR, 0x0f, 0x01), PacketType(TYPE_RNR, 0x0f, 0x05),
    PacketType(TYPE_SNRM, 0xef, 0x83), PacketType(TYPE_DISC, 0xef, 0x43), PacketType(TYPE_UA, 0xef, 0x63),
    PacketType(TYPE_DM, 0xef, 0x0f), PacketType(TYPE_FRMR, 0xef, 0x87), PacketType(TYPE_UI, 0xef, 0x03)
  ]

  // The first entry of the table from i on that fits.
  function TypeFrom(cf: bv8, i: nat): Option<nat>
    requires i <= |PACKET_TYPES|
    decreases |PACKET_TYPES| - i
  {
    if i == |PACKET_TYPES| then None
    else if cf & PACKET_TYPES[i].mask == PACKET_TYPES[i].value then Some(PACKET_TYPES[i].ptype)
    else TypeFrom(cf, i + 1)
  }

  lemma TableTypes(cf: bv8)
    ensures TypeFrom(cf, 0) == ControlType(cf)
  {
    assert TypeFrom(cf, 9) == None;
    TypeAt(cf, 8);
    TypeAt(cf, 7);
    TypeAt(cf, 6);
    TypeAt(cf, 5);
    TypeAt(cf, 4);
    TypeAt(cf, 3);
    TypeAt(cf, 2);
    TypeAt(cf, 1);
    TypeAt(cf, 0);
  }

  lemma TypeAt(cf: bv8, i: nat)
    requires i < |PACKET_TYPES|
    ensures var e := PACKET_TYPES[i];
            TypeFrom(cf, i) == if cf & e.mask == e.value then Some(e.ptype) else TypeFrom(cf, i + 1)
  {}

  // What the table says of a control byte.
  function ControlType(cf: bv8): Option<nat>
  {
    if cf & 0x01 == 0x00 then Some(TYPE_I)
    else if cf & 0x0f == 0x01 then Some(TYPE_RR)
    else if cf & 0x0f == 0x05 then Some(TYPE_RNR)
    else if cf & 0xef == 0x83 then Some(TYPE_SNRM)
    else if cf & 0xef == 0x43 then Some(TYPE_DISC)
    else if cf & 0xef == 0x63 then Some(TYPE_UA)
    else if cf & 0xef == 0x0f then Some(TYPE_DM)
    else if cf & 0xef == 0x87 then Some(TYPE_FRMR)
    else if cf & 0xef == 0x03 then Some(TYPE_UI)
    else None
  }

  function Rrr(cf: bv8): bv8 { (cf >> 5) & 7 }
  function Sss(cf: bv8): bv8 { (cf >> 1) & 7 }
  function Poll(cf: bv8): bv8 { if cf & 0x10 == 0 then 0 else 1 }

  // The control byte of hdlc_encode_data.
  function DataControl(rrr: bv8, sss: bv8): bv8
  {
    (((rrr << 5) + (sss << 1)) | 0x10) & 0xfe
  }

  // The control byte of hdlc_encode_rr.
  function RrControl(rrr: bv8): bv8
  {
    ((rrr << 5) & 0xf0) | 0x11
  }

  lemma DataControlDecodes(rrr: bv8, sss: bv8)
    ensures var cf := DataControl(rrr, sss);
            && ControlType(cf) == Some(TYPE_I) && Poll(cf) == 1
            && (Rrr(cf) == rrr && Sss(cf) == sss <==> rrr < 8 && sss < 8)
  {}

  lemma RrControlDecodes(rrr: bv8)
    ensures var cf := RrControl(rrr);
            ControlType(cf) == Some(TYPE_RR) && Poll(cf) == 1 && (Rrr(cf) == rrr <==> rrr < 8)
  {}

  // ----- frames -----

  // The fields of hdlc_t that the encoder reads and the decoder writes.
  datatype Fields = Fields(
    sender: nat, addrLen: nat, logicalDevice: bv16, phyAddress: bv16, clientAddr: bv16,
    ptype: nat, rrr: bv8, sss: bv8, pollFinal: bv8, segmentation: bv8,
    frameSize: nat, dataIndex: nat, dataSize: nat)

  function ServerAddr(f: Fields): seq<bv8>
  {
    AddrBytes(f.addrLen, f.logicalDevice, f.phyAddress)
  }

  function ClientAddr(f: Fields): seq<bv8>
  {
    AddrBytes(1, f.clientAddr, 0)
  }

  // Destination then source: the client comes first in what a server sends.
  function Addresses(f: Fields): seq<bv8>
  {
    if f.sender == SERVER then ClientAddr(f) + ServerAddr(f) else ServerAddr(f) + ClientAddr(f)
  }

  // The length subfield: everything but the two flags.
  function FrameLength(f: Fields, data: seq<bv8>): nat
  {
    f.addrLen + 6 + if data == [] then 0 else 2 + |data|
  }

  function Format(len: nat): (r: seq<bv8>)
    requires len < 0x10000
    ensures |r| == 2
  {
    [0xa0 + (len / 0x100 % 8) as bv8, (len % 0x100) as bv8]
  }

  // From the frame format to the control byte.
  function Header(f: Fields, control: bv8, data: seq<bv8>): seq<bv8>
    requires FrameLength(f, data) < 0x10000
  {
    Format(FrameLength(f, data)) + Addresses(f) + [control]
  }

  // What the frame check sequence covers; the header check and the data are there only with data.
  function Content(f: Fields, control: bv8, data: seq<bv8>): seq<bv8>
    requires FrameLength(f, data) < 0x10000
  {
    var h := Header(f, control, data);
    if data == [] then h else h + Trailer(h) + data
  }

  function Frame(f: Fields, control: bv8, data: seq<bv8>): (r: seq<bv8>)
    requires FrameLength(f, data) < 0x10000
    ensures f.addrLen in {1, 2, 4} ==> |r| == FrameLength(f, data) + 2
  {
    var c := Content(f, control, data);
    [0x7e] + c + Trailer(c) + [0x7e]
  }

  // ----- decoding -----

  // hdlc_get_len
  function LengthField(b1: bv8, b2: bv8): nat
  {
    (b1 & 3) as nat * 0x800 + b2 as nat
  }

  // The length subfield plus the two flags.
  function SizeField(b: seq<bv8>): nat
    requires |b| >= 3
  {
    LengthField(b[1], b[2]) + 2
  }

  function Masked(v: bv8, mask: bv8): bv8 { v & mask }

  // The bytes between the flags of a frame of the given size.
  function Inner(b: seq<bv8>, size: nat): seq<bv8>
    requires 2 <= size <= |b|
  {
    b[1..size - 1]
  }

  // The bytes that give the format and the length cannot also be the closing flag.
  lemma NoShortFrame(b: seq<bv8>)
    requires |b| >= 3 && SizeField(b) <= |b|
    requires Masked(b[1], 0xa0) == 0xa0 && b[SizeField(b) - 1] == 0x7e
    ensures SizeField(b) >= 4
  {
    assert (0x7e as bv8) as nat == 0x7e;
    if SizeField(b) == 2 {
      FlagIsNoFormat(b[1]);
    }
  }

  lemma FlagIsNoFormat(v: bv8)
    ensures v == 0x7e ==> Masked(v, 0xa0) != 0xa0
  {}

  // Enough memory for the longest header to be read from any buffer contents.
  const MIN_BUFFER: nat := 15

  // The outcome of hdlc_decode on the first size bytes of b, and the fields it leaves.
  function Decoded(f: Fields, b: seq<bv8>, size: nat): (int, Fields)
    requires |b| >= MIN_BUFFER && size <= |b|
  {
    if b[0] != 0x7e then (ERR_7E, f)
    else if Masked(b[1], 0xa0) != 0xa0 then (ERR_FORMAT, f)
    else
      var g := f.(segmentation := if Masked(b[1], 8) == 0 then 0 else 1, frameSize := SizeField(b));
      if !(g.frameSize <= size && b[g.frameSize - 1] == 0x7e) then (ERR_SIZE, g)
      else
        NoShortFrame(b);
        if !Checks(Inner(b, g.frameSize)) then (ERR_FCS, g)
        else DecodedDestination(g, b)
  }

  function DecodedDestination(f: Fields, b: seq<bv8>): (int, Fields)
    requires |b| >= MIN_BUFFER
  {
    var n := AddrSize(b[3..], 4);
    if f.sender == CLIENT then
      match GetAddr(b[3..], n, Addr(f.logicalDevice, f.phyAddress))
      case None => (ERR_ADDR, f.(addrLen := n))
      case Some(a) =>
        DecodedSource(f.(addrLen := n, logicalDevice := a.upper, phyAddress := a.lower), b, 3 + n)
    else if n == 1 then DecodedSource(f.(clientAddr := Value(b[3])), b, 4)
    else (ERR_ADDR, f)
  }

  function DecodedSource(f: Fields, b: seq<bv8>, ptr: nat): (int, Fields)
    requires |b| >= MIN_BUFFER && ptr <= 7
  {
    var n := AddrSize(b[ptr..], 4);
    if f.sender == CLIENT then
      if n == 1 then DecodedControl(f.(clientAddr := Value(b[ptr])), b, ptr + 1) else (ERR_ADDR, f)
    else
      match GetAddr(b[ptr..], n, Addr(f.logicalDevice, f.phyAddress))
      case None => (ERR_ADDR, f.(addrLen := n))
      case Some(a) =>
        DecodedControl(f.(addrLen := n, logicalDevice := a.upper, phyAddress := a.lower), b, ptr + n)
  }

  function DecodedControl(f: Fields, b: seq<bv8>, ptr: nat): (int, Fields)
    requires |b| >= MIN_BUFFER && ptr <= 11
  {
    var cf := b[ptr];
    var g := f.(pollFinal := Poll(cf), rrr := Rrr(cf), sss := Sss(cf));
    match ControlType(cf)
    case None => (ERR, g)
    case Some(t) => DecodedInfo(g.(ptype := t), b, ptr + 1)
  }

  // The remaining size is kept in 16 bits, so that a frame too short for its header wraps.
  function DecodedInfo(f: Fields, b: seq<bv8>, ptr: nat): (int, Fields)
    requires |b| >= MIN_BUFFER && 1 <= ptr <= 12
  {
    var remaining := (f.frameSize - 3 - ptr) % 0x10000;
    if remaining < 2 then (OK, f)
    else if !Checks(b[1..ptr + 2]) then (ERR_HCS, f)
    else (OK, f.(dataIndex := ptr + 2, dataSize := remaining - 2))
  }

  // ----- the context -----

  class HdlcContext {
    var sender: nat
    var addrLen: nat
    var logicalDevice: bv16
    var phyAddress: bv16
    var clientAddr: bv16
    var ptype: nat
    var rrr: bv8
    var sss: bv8
    var pollFinal: bv8
    var segmentation: bv8
    var frameSize: nat
    var dataIndex: nat
    var dataSize: nat

    ghost function View(): Fields
      reads this
    {
      Fields(sender, addrLen, logicalDevice, phyAddress, clientAddr, ptype, rrr, sss, pollFinal,
             segmentation, frameSize, dataIndex, dataSize)
    }

    // Destination then source, from position 3.
    method EncodeAddresses(buf: array<bv8>) returns (index: nat)
      requires addrLen + 4 <= buf.Length
      modifies buf
      ensures index == 4 + addrLen
      ensures addrLen in {1, 2, 4} ==> buf[..] == Stored(old(buf[..]), 3, Addresses(View()))
    {
      hide AddrBytes, Stored;
      index := 3;
      var ret;
      ghost var m := buf[..];
      if sender == SERVER {
        ret := SetAddr(buf, index, 1, clientAddr, 0);
        index := index + 1;
        ret := SetAddr(buf, index, addrLen, logicalDevice, phyAddress);
        index := index + addrLen;
        if addrLen in {1, 2, 4} {
          StoredTwice(m, 3, ClientAddr(View()), ServerAddr(View()));
        }
      } else {
        ret := SetAddr(buf, index, addrLen, logicalDevice, phyAddress);
        index := index + addrLen;
        ret := SetAddr(buf, index, 1, clientAddr, 0);
        index := index + 1;
        if addrLen in {1, 2, 4} {
          StoredTwice(m, 3, ServerAddr(View()), ClientAddr(View()));
        }
      }
    }

    // Everything but the check sequences and the closing flag.
    method EncodeHead(buf: array<bv8>, control: bv8, data: seq<bv8>) returns (index: nat, infoStart: nat)
      requires FrameLength(View(), data) + 2 < 0x10000
      requires FrameLength(View(), data) + 2 <= buf.Length
      modifies buf
      ensures index == FrameLength(View(), data) - 1
      ensures infoStart == if data == [] then 0 else 7 + addrLen
      ensures addrLen in {1, 2, 4} ==> HeaderDone(View(), control, data, old(buf[..]), buf[..])
    {
      hide Addresses, Stored, Format, HeaderDone;
      ghost var m := buf[..];
      PutByte(buf, 0, 0x7e);
      index := EncodeAddresses(buf);
      PutByte(buf, index, control);
      index := index + 1;
      ghost var m3 := buf[..];
      infoStart := 0;
      if data != [] {
        index := index + 2;
        infoStart := index;
        StoreAt(buf, infoStart, data);
        index := index + |data|;
      }
      ghost var m4 := buf[..];
      PutFormat(buf, index + 1);
      if addrLen in {1, 2, 4} {
        HeaderInPlace(View(), control, data, m, m3, m4, buf[..]);
      }
    }

    // Writes a frame into buf. The size limit is looked at only once everything is written, so
    // the buffer itself must hold the frame.
    method Encode(buf: array<bv8>, size: nat, control: bv8, data: seq<bv8>) returns (ret: int)
      requires FrameLength(View(), data) + 2 < 0x10000
      requires FrameLength(View(), data) + 2 <= buf.Length
      modifies buf
      ensures ret == if FrameLength(View(), data) + 2 <= size then FrameLength(View(), data) + 2 else -1
      ensures addrLen in {1, 2, 4} ==> buf[..] == Stored(old(buf[..]), 0, Frame(View(), control, data))
    {
      hide Stored, Content, Header, Frame, Trailer, HeaderDone;
      ghost var f, m := View(), buf[..];
      var index, infoStart := EncodeHead(buf, control, data);
      ghost var m5 := buf[..];
      if data != [] {
        PutCheck(buf, infoStart - 2);
      }
      ghost var m6 := buf[..];
      if addrLen in {1, 2, 4} {
        ContentInPlace(f, control, data, m, m5, m6);
      }
      PutCheck(buf, index);
      ghost var m7 := buf[..];
      index := index + 2;
      PutByte(buf, index, 0x7e);
      index := index + 1;
      if addrLen in {1, 2, 4} {
        FrameInPlace(f, control, data, m, m6, m7, buf[..]);
      }
      ret := if index <= size then index else -1;
    }

    method EncodeData(buf: array<bv8>, size: nat, data: seq<bv8>) returns (ret: int)
      requires FrameLength(View(), data) + 2 < 0x10000
      requires FrameLength(View(), data) + 2 <= buf.Length
      modifies `ptype, buf
      ensures View() == old(View()).(ptype := TYPE_I)
      ensures ret == if FrameLength(View(), data) + 2 <= size then FrameLength(View(), data) + 2 else -1
      ensures addrLen in {1, 2, 4} ==>
                buf[..] == Stored(old(buf[..]), 0, Frame(View(), DataControl(rrr, sss), data))
    {
      hide Stored, Frame, DataControl;
      var control := DataControl(rrr, sss);
      ptype := TYPE_I;
      ret := Encode(buf, size, control, data);
    }

    method EncodeRr(buf: array<bv8>, size: nat) returns (ret: int)
      requires addrLen + 8 < 0x10000 && addrLen + 8 <= buf.Length
      modifies `ptype, buf
      ensures View() == old(View()).(ptype := TYPE_RR)
      ensures ret == if addrLen + 8 <= size then addrLen + 8 else -1
      ensures addrLen in {1, 2, 4} ==>
                buf[..] == Stored(old(buf[..]), 0, Frame(View(), RrControl(rrr), []))
    {
      hide Stored, Frame, RrControl;
      var control := RrControl(rrr);
      ptype := TYPE_RR;
      ret := Encode(buf, size, control, []);
    }

    method Decode(buf: array<bv8>, size: nat) returns (ret: int)
      requires buf.Length >= MIN_BUFFER && size <= buf.Length
      modifies this
      ensures (ret, View()) == Decoded(old(View()), buf[..], size)
    {
      hide Checks, Masked, LengthField, DecodedDestination;
      ghost var b := buf[..];
      if buf[0] != 0x7e {
        return ERR_7E;
      }
      if Masked(buf[1], 0xa0) != 0xa0 {
        return ERR_FORMAT;
      }
      segmentation := if Masked(buf[1], 8) == 0 then 0 else 1;
      frameSize := LengthField(buf[1], buf[2]) + 2;
      if !(frameSize <= size && buf[frameSize - 1] == 0x7e) {
        return ERR_SIZE;
      }
      NoShortFrame(b);
      ret := CheckFcs(buf, frameSize);
      if ret == OK {
        ret := DecodeDestination(buf);
      }
    }

    method DecodeDestination(buf: array<bv8>) returns (ret: int)
      requires buf.Length >= MIN_BUFFER
      modifies this
      ensures (ret, View()) == DecodedDestination(old(View()), buf[..])
    {
      hide DecodedSource, AddrSize, GetAddr;
      var n := DecodeAddrSize(buf, 3, 4);
      if sender == CLIENT {
        ret := ReadServerAddr(buf, 3, n);
        addrLen := n;
      } else if n == 1 {
        clientAddr := Value(buf[3]);
        ret := OK;
      } else {
        ret := ERR_ADDR;
      }
      if ret == OK {
        ret := DecodeSource(buf, 3 + n);
      }
    }

    // hdlc_get_addr into the server address.
    method ReadServerAddr(buf: array<bv8>, ptr: nat, n: nat) returns (ret: int)
      requires ptr + 4 <= buf.Length && n <= 4
      modifies `logicalDevice, `phyAddress
      ensures var a := GetAddr(buf[ptr..], n, Addr(old(logicalDevice), old(phyAddress)));
              && ret == (if a.Some? then OK else ERR_ADDR)
              && Addr(logicalDevice, phyAddress)
                 == (if a.Some? then a.value else Addr(old(logicalDevice), old(phyAddress)))
    {
      hide Value, Addr16;
      ret := OK;
      if n == 1 {
        logicalDevice := Value(buf[ptr]);
      } else if n == 2 {
        logicalDevice := Value(buf[ptr]);
        phyAddress := Value(buf[ptr + 1]);
      } else if n == 4 {
        logicalDevice := Addr16(buf[ptr], buf[ptr + 1]);
        phyAddress := Addr16(buf[ptr + 2], buf[ptr + 3]);
      } else {
        ret := ERR_ADDR;
      }
    }

    method DecodeSource(buf: array<bv8>, ptr: nat) returns (ret: int)
      requires buf.Length >= MIN_BUFFER && ptr <= 7
      modifies this
      ensures (ret, View()) == DecodedSource(old(View()), buf[..], ptr)
    {
      hide DecodedControl, AddrSize, GetAddr;
      var n := DecodeAddrSize(buf, ptr, 4);
      if sender == CLIENT {
        if n == 1 {
          clientAddr := Value(buf[ptr]);
          ret := OK;
        } else {
          ret := ERR_ADDR;
        }
      } else {
        ret := ReadServerAddr(buf, ptr, n);
        addrLen := n;
      }
      if ret == OK {
        ret := DecodeControl(buf, ptr + n);
      }
    }

    method DecodeControl(buf: array<bv8>, ptr: nat) returns (ret: int)
      requires buf.Length >= MIN_BUFFER && ptr <= 11
      modifies this
      ensures (ret, View()) == DecodedControl(old(View()), buf[..], ptr)
    {
      hide DecodedInfo, ControlType, Poll, Rrr, Sss;
      ret := DecodeControlField(buf[ptr]);
      if ret == OK {
        ret := DecodeInfo(buf, ptr + 1);
      }
    }

    // The search of the table, and the counters whatever it finds.
    method DecodeControlField(cf: bv8) returns (ret: int)
      modifies `ptype, `pollFinal, `rrr, `sss
      ensures ret == if ControlType(cf).Some? then OK else ERR
      ensures ptype == if ControlType(cf).Some? then ControlType(cf).value else old(ptype)
      ensures pollFinal == Poll(cf) && rrr == Rrr(cf) && sss == Sss(cf)
    {
      hide ControlType, Poll, Rrr, Sss, PACKET_TYPES;
      ret := ERR;
      TableTypes(cf);
      var i := 0;
      while i < |PACKET_TYPES| && ret != OK
        invariant i <= |PACKET_TYPES|
        invariant ret == OK ==> ControlType(cf) == Some(ptype)
        invariant ret != OK ==> ret == ERR && ptype == old(ptype) && TypeFrom(cf, i) == ControlType(cf)
        decreases |PACKET_TYPES| - i, ret != OK
      {
        if cf & PACKET_TYPES[i].mask == PACKET_TYPES[i].value {
          ptype := PACKET_TYPES[i].ptype;
          ret := OK;
        }
        i := i + 1;
      }
      pollFinal := Poll(cf);
      rrr := Rrr(cf);
      sss := Sss(cf);
    }

    method DecodeInfo(buf: array<bv8>, ptr: nat) returns (ret: int)
      requires buf.Length >= MIN_BUFFER && 1 <= ptr <= 12
      modifies `dataIndex, `dataSize
      ensures (ret, View()) == DecodedInfo(old(View()), buf[..], ptr)
    {
      hide Checks;
      ret := OK;
      var remaining := (frameSize - 3 - ptr) % 0x10000;
      if remaining >= 2 {
        ret := CheckHcs(buf, ptr + 2);
        if ret == OK {
          dataIndex := ptr + 2;
          dataSize := remaining - 2;
        }
      }
    }
  }

  method DecodeAddrSize(buf: array<bv8>, ptr: nat, max: nat) returns (n: nat)
    requires ptr + max <= buf.Length
    ensures n == AddrSize(buf[ptr..], max)
  {
    hide OddByte;
    n := 0;
    var i := 0;
    while i < max
      invariant 0 <= i <= max && n == i
      invariant AddrSize(buf[ptr..], max) == i + AddrSize(buf[ptr + i..], max - i)
    {
      assert buf[ptr + i..][1..] == buf[ptr + i + 1..];
      n := n + 1;
      if OddByte(buf[ptr + i]) {
        break;
      }
      i := i + 1;
    }
  }

  method CheckFcs(buf: array<bv8>, size: nat) returns (ret: int)
    requires 4 <= size <= buf.Length
    ensures ret == if Checks(Inner(buf[..], size)) then OK else ERR_FCS
  {
    hide Xor16, Crc, Joined;
    var fcs := Pppfcs16(INIT, buf, 1, size - 4);
    ghost var c := Inner(buf[..], size);
    assert c[..|c| - 2] == buf[1..size - 3];
    var expected := Joined(buf[size - 3], buf[size - 2]);
    ret := if expected == Xor16(fcs, 0xffff) then OK else ERR_FCS;
  }

  method CheckHcs(buf: array<bv8>, size: nat) returns (ret: int)
    requires 3 <= size <= buf.Length
    ensures ret == if Checks(buf[..][1..size]) then OK else ERR_HCS
  {
    hide Xor16, Crc, Joined;
    var hcs := Pppfcs16(INIT, buf, 1, size - 3);
    ghost var c := buf[..][1..size];
    assert c[..|c| - 2] == buf[1..size - 2];
    var expected := Joined(buf[size - 2], buf[size - 1]);
    ret := if expected == Xor16(hcs, 0xffff) then OK else ERR_HCS;
  }

  // The check sequence of everything between the opening flag and at, stored at at.
  method PutCheck(buf: array<bv8>, at: nat)
    requires 1 <= at && at + 2 <= buf.Length
    modifies buf
    ensures buf[..] == Stored(old(buf[..]), at, Trailer(old(buf[..])[1..at]))
  {
    hide Stored, Low, Xor16, Crc;
    ghost var m := buf[..];
    var fcs := Pppfcs16(INIT, buf, 1, at - 1);
    assert m[1..at] == buf[1..at];
    SetUint16LowFirst(buf, at, Xor16(fcs, 0xffff));
  }

  method PutFormat(buf: array<bv8>, length: nat)
    requires 3 <= buf.Length && length < 0x10000
    modifies buf
    ensures buf[..] == Stored(old(buf[..]), 1, Format(length))
  {
    buf[1] := 0xa0 + (length / 0x100 % 8) as bv8;
    buf[2] := (length % 0x100) as bv8;
  }

  // What is in place once the format is written.
  ghost predicate HeaderDone(f: Fields, control: bv8, data: seq<bv8>, m: seq<bv8>, b: seq<bv8>)
  {
    var h := 5 + f.addrLen;
    var n := FrameLength(f, data) - 1;
    && FrameLength(f, data) < 0x10000
    && n + 3 <= |m| == |b|
    && b[0..1] == [0x7e]
    && b[1..h] == Header(f, control, data)
    && (data != [] ==> b[h + 2..n] == data)
    && b[n..] == m[n..]
  }

  lemma HeaderInPlace(f: Fields, control: bv8, data: seq<bv8>, m: seq<bv8>, m3: seq<bv8>, m4: seq<bv8>, m5: seq<bv8>)
    requires f.addrLen in {1, 2, 4}
    requires FrameLength(f, data) < 0x10000 && FrameLength(f, data) + 2 <= |m|
    requires m3 == Stored(Stored(Stored(m, 0, [0x7e]), 3, Addresses(f)), 4 + f.addrLen, [control])
    requires m4 == if data == [] then m3 else Stored(m3, 7 + f.addrLen, data)
    requires m5 == Stored(m4, 1, Format(FrameLength(f, data)))
    ensures HeaderDone(f, control, data, m, m5)
  {
    hide Addresses, Stored, Format;
    var h := 5 + f.addrLen;
    var n := FrameLength(f, data) - 1;
    var a, t := Addresses(f), Format(FrameLength(f, data));
    AddressesSize(f);
    var m1 := Stored(m, 0, [0x7e]);
    var m2 := Stored(m1, 3, a);
    StoredReads(m, 0, [0x7e]);
    StoredKeeps(m1, 3, a, 0, 1);
    StoredKeeps(m2, h - 1, [control], 0, 1);
    StoredReads(m1, 3, a);
    StoredKeeps(m2, h - 1, [control], 3, h - 1);
    StoredReads(m2, h - 1, [control]);
    StoredKeeps(m, 0, [0x7e], n, |m|);
    StoredKeeps(m1, 3, a, n, |m|);
    StoredKeeps(m2, h - 1, [control], n, |m|);
    if data != [] {
      StoredKeeps(m3, h + 2, data, 0, 1);
      StoredKeeps(m3, h + 2, data, 3, h - 1);
      StoredKeeps(m3, h + 2, data, h - 1, h);
      StoredKeeps(m3, h + 2, data, n, |m|);
      StoredReads(m3, h + 2, data);
      StoredKeeps(m4, 1, t, h + 2, n);
    }
    StoredKeeps(m4, 1, t, 0, 1);
    StoredKeeps(m4, 1, t, 3, h - 1);
    StoredKeeps(m4, 1, t, h - 1, h);
    StoredKeeps(m4, 1, t, n, |m|);
    StoredReads(m4, 1, t);
    Joined3(m5, 1, 3, h - 1, h);
    assert m5[1..h] == t + a + [control];
    Rest(m5, n);
    Rest(m, n);
  }

  lemma AddressesSize(f: Fields)
    requires f.addrLen in {1, 2, 4}
    ensures |Addresses(f)| == f.addrLen + 1
  {}

  lemma ContentInPlace(f: Fields, control: bv8, data: seq<bv8>, m: seq<bv8>, m5: seq<bv8>, m6: seq<bv8>)
    requires f.addrLen in {1, 2, 4} && FrameLength(f, data) < 0x10000
    requires HeaderDone(f, control, data, m, m5)
    requires m6 == if data == [] then m5 else Stored(m5, 5 + f.addrLen, Trailer(m5[1..5 + f.addrLen]))
    ensures m6[0..1] == [0x7e] && m6[1..FrameLength(f, data) - 1] == Content(f, control, data)
    ensures m6[FrameLength(f, data) - 1..] == m[FrameLength(f, data) - 1..]
  {
    hide Header, Trailer, Stored;
    if data != [] {
      var h := 5 + f.addrLen;
      var n := FrameLength(f, data) - 1;
      var t := Trailer(Header(f, control, data));
      StoredKeeps(m5, h, t, 0, 1);
      StoredKeeps(m5, h, t, 1, h);
      StoredReads(m5, h, t);
      StoredKeeps(m5, h, t, h + 2, n);
      StoredKeeps(m5, h, t, n, |m5|);
      Joined3(m6, 1, h, h + 2, n);
      Rest(m6, n);
      Rest(m5, n);
    }
  }

  lemma FrameInPlace(f: Fields, control: bv8, data: seq<bv8>, m: seq<bv8>, m6: seq<bv8>, m7: seq<bv8>, m8: seq<bv8>)
    requires f.addrLen in {1, 2, 4} && FrameLength(f, data) < 0x10000
    requires FrameLength(f, data) + 2 <= |m| == |m6|
    requires m6[0..1] == [0x7e] && m6[1..FrameLength(f, data) - 1] == Content(f, control, data)
    requires m6[FrameLength(f, data) - 1..] == m[FrameLength(f, data) - 1..]
    requires m7 == Stored(m6, FrameLength(f, data) - 1, Trailer(m6[1..FrameLength(f, data) - 1]))
    requires m8 == Stored(m7, FrameLength(f, data) + 1, [0x7e])
    ensures m8 == Stored(m, 0, Frame(f, control, data))
  {
    hide Content, Trailer, Stored;
    var n := FrameLength(f, data) - 1;
    var t := Trailer(Content(f, control, data));
    StoredKeeps(m6, n, t, 0, 1);
    StoredKeeps(m6, n, t, 1, n);
    StoredReads(m6, n, t);
    StoredKeeps(m6, n, t, n + 3, |m|);
    StoredKeeps(m7, n + 2, [0x7e], 0, 1);
    StoredKeeps(m7, n + 2, [0x7e], 1, n);
    StoredKeeps(m7, n + 2, [0x7e], n, n + 2);
    StoredReads(m7, n + 2, [0x7e]);
    StoredKeeps(m7, n + 2, [0x7e], n + 3, |m|);
    assert m6[n + 3..] == m6[n..][3..];
    assert m[n + 3..] == m[n..][3..];
    Joined3(m8, 0, 1, n, n + 2);
    Joined3(m8, 0, n + 2, n + 3, n + 3);
    assert m8[..n + 3] == m8[0..n + 3] == Frame(f, control, data);
    Rest(m8, n + 3);
    Rest(m6, n + 3);
    assert m8[n + 3..] == m[n + 3..];
    StoredWhole(m, m8, Frame(f, control, data));
  }

  method PutByte(buf: array<bv8>, at: nat, b: bv8)
    requires at < buf.Length
    modifies buf
    ensures buf[..] == Stored(old(buf[..]), at, [b])
  {
    buf[at] := b;
  }

  method SetUint16LowFirst(buf: array<bv8>, at: nat, v: bv16)
    requires at + 2 <= buf.Length
    modifies buf
    ensures buf[..] == Stored(old(buf[..]), at, Low(v))
  {
    buf[at] := (v & 0xff) as bv8;
    buf[at + 1] := ((v >> 8) & 0xff) as bv8;
  }

  method SetAddr(buf: array<bv8>, at: nat, size: nat, upper: bv16, lower: bv16) returns (ret: int)
    requires at + size <= buf.Length
    modifies buf
    ensures ret == if size in {1, 2, 4} then OK else ERR_ADDR
    ensures buf[..] == Stored(old(buf[..]), at, AddrBytes(size, upper, lower))
  {
    hide LastByte, MidByte, HighByte;
    ret := OK;
    if size == 1 {
      buf[at] := LastByte(upper);
    } else if size == 2 {
      buf[at] := MidByte(upper);
      buf[at + 1] := LastByte(lower);
    } else if size == 4 {
      buf[at] := HighByte(upper);
      buf[at + 1] := MidByte(upper);
      buf[at + 2] := HighByte(lower);
      buf[at + 3] := LastByte(lower);
    } else {
      ret := ERR_ADDR;
    }
  }

  // ----- decoding what was encoded -----

  // The length subfield survives exactly while it fits its low byte: its high bits are written
  // at 2^8, three of them, and two of them are read at 2^11.
  lemma LengthRoundTrip(len: nat)
    requires len < 0x10000
    ensures var b := Format(len);
            && Masked(b[0], 0xa0) == 0xa0 && Masked(b[0], 8) == 0
            && (LengthField(b[0], b[1]) == len <==> len < 0x100)
  {
    hide LengthField;
    FormatReads(len / 0x100, len % 0x100);
    MovedBits(len / 0x100, len % 0x100);
    assert len == len / 0x100 * 0x100 + len % 0x100;
  }

  // What is read back from the two bytes.
  lemma FormatReads(hi: nat, lo: nat)
    requires lo < 0x100
    ensures var v := 0xa0 + (hi % 8) as bv8;
            && Masked(v, 0xa0) == 0xa0 && Masked(v, 8) == 0
            && LengthField(v, lo as bv8) == hi % 4 * 0x800 + lo
  {
    hide Masked, LengthField;
    HighBits(hi % 8);
    assert hi % 8 % 4 == hi % 4;
    LowBits(0xa0 + (hi % 8) as bv8, lo, hi % 4);
  }

  lemma LowBits(v: bv8, lo: nat, two: nat)
    requires lo < 0x100 && (v & 3) as nat == two
    ensures LengthField(v, lo as bv8) == two * 0x800 + lo
  {}

  lemma MovedBits(hi: nat, lo: nat)
    requires lo < 0x100
    ensures hi % 4 * 0x800 + lo == hi * 0x100 + lo <==> hi == 0
  {}

  lemma HighBits(hi: nat)
    requires hi < 8
    ensures var v := 0xa0 + hi as bv8;
            Masked(v, 0xa0) == 0xa0 && Masked(v, 8) == 0 && (v & 3) as nat == hi % 4
  {
    if hi < 4 {
      assert hi == 0 || hi == 1 || hi == 2 || hi == 3;
    } else {
      assert hi == 4 || hi == 5 || hi == 6 || hi == 7;
    }
  }

  // The fields of g once the control byte and the information field are read.
  function Opened(f: Fields, g: Fields, control: bv8, data: seq<bv8>): Fields
    requires ControlType(control).Some?
  {
    g.(ptype := ControlType(control).value, rrr := Rrr(control), sss := Sss(control), pollFinal := Poll(control),
       dataIndex := if data == [] then g.dataIndex else f.addrLen + 7,
       dataSize := if data == [] then g.dataSize else |data|)
  }

  function Framed(f: Fields, g: Fields, data: seq<bv8>): Fields
  {
    g.(segmentation := 0, frameSize := FrameLength(f, data) + 2)
  }

  // The fields of g after it has received what f sent.
  function Received(f: Fields, g: Fields, control: bv8, data: seq<bv8>): Fields
    requires ControlType(control).Some?
  {
    Opened(f, WithAddresses(f, Framed(f, g, data)), control, data)
  }

  function WithAddresses(f: Fields, g: Fields): Fields
  {
    g.(addrLen := f.addrLen, logicalDevice := f.logicalDevice, clientAddr := f.clientAddr,
       phyAddress := if f.addrLen == 1 then g.phyAddress else f.phyAddress)
  }

  // The addresses of f as the wire carries them.
  function Carried(f: Fields, g: Fields): Fields
    requires f.addrLen in {1, 2, 4}
  {
    var a := GetAddr(ServerAddr(f), f.addrLen, Addr(g.logicalDevice, g.phyAddress)).value;
    g.(addrLen := f.addrLen, logicalDevice := a.upper, phyAddress := a.lower, clientAddr := Value(ClientAddr(f)[0]))
  }

  lemma CarriedWhole(f: Fields, g: Fields)
    requires f.addrLen in {1, 2, 4}
    ensures Carried(f, g) == WithAddresses(f, g)
            <==> Representable(f.addrLen, f.logicalDevice, f.phyAddress) && Representable(1, f.clientAddr, 0)
  {
    hide AddrBytes, Value, Addr16;
    var before := Addr(g.logicalDevice, g.phyAddress);
    AddrRoundTrip(f.addrLen, f.logicalDevice, f.phyAddress, [], before);
    AddrRoundTrip(1, f.clientAddr, 0, [], before);
    assert ServerAddr(f) + [] == ServerAddr(f) && ClientAddr(f) + [] == ClientAddr(f);
  }

  // What can be sent so that the other end reads the same.
  predicate Sendable(f: Fields, control: bv8, data: seq<bv8>)
  {
    && Representable(f.addrLen, f.logicalDevice, f.phyAddress)
    && Representable(1, f.clientAddr, 0)
    && FrameLength(f, data) < 0x100
    && ControlType(control).Some?
  }

  // A buffer that starts with the frame.
  predicate Holds(b: seq<bv8>, f: Fields, control: bv8, data: seq<bv8>)
    requires FrameLength(f, data) < 0x10000
  {
    Frame(f, control, data) <= b
  }

  lemma FrameParts(b: seq<bv8>, f: Fields, control: bv8, data: seq<bv8>)
    requires f.addrLen in {1, 2, 4} && FrameLength(f, data) < 0x10000 && Holds(b, f, control, data)
    ensures var len := FrameLength(f, data);
            && |b| >= len + 2 && b[0] == 0x7e && b[len + 1] == 0x7e
            && b[1..3] == Format(len)
            && b[1..len - 1] == Content(f, control, data)
            && b[1..len + 1] == Content(f, control, data) + Trailer(Content(f, control, data))
            && Addresses(f) <= b[3..] && b[4 + f.addrLen] == control
            && (data != [] ==> b[1..7 + f.addrLen] == Header(f, control, data) + Trailer(Header(f, control, data))
                               && b[7 + f.addrLen..7 + f.addrLen + |data|] == data)
  {
    hide Addresses, Trailer, Format, Header, Content;
    AddressesSize(f);
    var len, c := FrameLength(f, data), Content(f, control, data);
    HeaderParts(f, control, data);
    Flagged(b, c, Trailer(c));
    Sliced(b, 1, len - 1, 0, 4 + f.addrLen);
    HeaderStands(b, f, control, Header(f, control, data), Format(len));
    if data != [] {
      Sliced(b, 1, len - 1, 0, 6 + f.addrLen);
      Sliced(b, 1, len - 1, 6 + f.addrLen, len - 2);
    }
  }

  // What stands between two flags.
  lemma Flagged(b: seq<bv8>, c: seq<bv8>, t: seq<bv8>)
    requires |t| == 2 && [0x7e] + c + t + [0x7e] <= b
    ensures |b| >= |c| + 4 && b[0] == 0x7e && b[|c| + 3] == 0x7e
    ensures b[1..|c| + 1] == c && b[1..|c| + 3] == c + t
  {
    var w := [0x7e] + c + t + [0x7e];
    assert b[..|w|] == w && w[1..|c| + 1] == c && w[1..|c| + 3] == c + t;
    Sliced(b, 0, |w|, 1, |c| + 1);
    Sliced(b, 0, |w|, 1, |c| + 3);
  }

  lemma HeaderStands(b: seq<bv8>, f: Fields, control: bv8, h: seq<bv8>, t: seq<bv8>)
    requires f.addrLen in {1, 2, 4} && |b| >= 5 + f.addrLen && |t| == 2 && b[1..5 + f.addrLen] == h
    requires h[..2] == t && h[2..3 + f.addrLen] == Addresses(f) && h[3 + f.addrLen] == control
    ensures b[1..3] == t && Addresses(f) <= b[3..] && b[4 + f.addrLen] == control
  {
    hide Addresses;
    AddressesSize(f);
    Sliced(b, 1, 5 + f.addrLen, 0, 2);
    Sliced(b, 1, 5 + f.addrLen, 2, 3 + f.addrLen);
    assert b[3..][..f.addrLen + 1] == b[3..4 + f.addrLen];
  }

  lemma HeaderParts(f: Fields, control: bv8, data: seq<bv8>)
    requires f.addrLen in {1, 2, 4} && FrameLength(f, data) < 0x10000
    ensures var h, c := Header(f, control, data), Content(f, control, data);
            && |h| == 4 + f.addrLen && h[..2] == Format(FrameLength(f, data))
            && h[2..3 + f.addrLen] == Addresses(f) && h[3 + f.addrLen] == control
            && |c| == FrameLength(f, data) - 2 && c[..4 + f.addrLen] == h
            && (data != [] ==> c[..6 + f.addrLen] == h + Trailer(h) && c[6 + f.addrLen..] == data)
  {
    hide Addresses, Trailer, Format;
    AddressesSize(f);
  }

  lemma InfoDecodes(b: seq<bv8>, f: Fields, g: Fields, control: bv8, data: seq<bv8>)
    requires f.addrLen in {1, 2, 4} && FrameLength(f, data) < 0x10000 && Holds(b, f, control, data) && |b| >= MIN_BUFFER
    requires g.frameSize == FrameLength(f, data) + 2
    ensures DecodedInfo(g, b, 5 + f.addrLen)
            == (OK, if data == [] then g else g.(dataIndex := f.addrLen + 7, dataSize := |data|))
  {
    hide Checks, Header, Content, Trailer, Frame, ControlType, Addresses;
    FrameParts(b, f, control, data);
    if data != [] {
      TrailerChecks(Header(f, control, data));
    }
  }

  lemma ControlDecodes(b: seq<bv8>, f: Fields, g: Fields, control: bv8, data: seq<bv8>)
    requires f.addrLen in {1, 2, 4} && FrameLength(f, data) < 0x10000 && Holds(b, f, control, data) && |b| >= MIN_BUFFER
    requires g.frameSize == FrameLength(f, data) + 2
    ensures ControlType(control).Some? ==> DecodedControl(g, b, 4 + f.addrLen) == (OK, Opened(f, g, control, data))
    ensures ControlType(control).None? ==> DecodedControl(g, b, 4 + f.addrLen).0 == ERR
  {
    hide Checks, Header, Content, Trailer, Frame, ControlType, Addresses, DecodedInfo, Poll, Rrr, Sss;
    FrameParts(b, f, control, data);
    if ControlType(control).Some? {
      var h := g.(pollFinal := Poll(control), rrr := Rrr(control), sss := Sss(control),
                  ptype := ControlType(control).value);
      InfoDecodes(b, f, h, control, data);
    }
  }

  // Reading an address that stands at the front of b.
  lemma AddrReads(size: nat, upper: bv16, lower: bv16, b: seq<bv8>, before: Addr)
    requires size in {1, 2, 4} && AddrBytes(size, upper, lower) <= b && |b| >= 4
    ensures AddrSize(b, 4) == size
    ensures GetAddr(b, size, before) == GetAddr(AddrBytes(size, upper, lower), size, before)
  {
    hide AddrSize, Value, Addr16, AddrBytes;
    var a := AddrBytes(size, upper, lower);
    assert b == a + b[|a|..];
    AddrEnds(size, upper, lower, b[|a|..]);
  }

  lemma ClientReads(client: bv16, b: seq<bv8>)
    requires AddrBytes(1, client, 0) <= b && |b| >= 4
    ensures AddrSize(b, 4) == 1 && b[0] == AddrBytes(1, client, 0)[0]
  {
    hide AddrSize, AddrBytes;
    AddrReads(1, client, 0, b, Addr(0, 0));
  }

  lemma EnvelopeDecodes(f: Fields, g: Fields, control: bv8, data: seq<bv8>, b: seq<bv8>, size: nat)
    requires f.addrLen in {1, 2, 4} && FrameLength(f, data) < 0x100 && Holds(b, f, control, data)
    requires FrameLength(f, data) + 2 <= size <= |b| && |b| >= MIN_BUFFER
    ensures Decoded(g, b, size) == DecodedDestination(Framed(f, g, data), b)
  {
    hide Checks, Header, Content, Trailer, Frame, ControlType, Masked, LengthField, Format;
    hide DecodedDestination;
    var len := FrameLength(f, data);
    FrameParts(b, f, control, data);
    assert b[1] == b[1..3][0] && b[2] == b[1..3][1];
    LengthRoundTrip(len);
    TrailerChecks(Content(f, control, data));
    NoShortFrame(b);
    assert Inner(b, len + 2) == b[1..len + 1];
  }

  lemma AddressesDecode(f: Fields, g: Fields, b: seq<bv8>)
    requires g.sender == f.sender && f.sender in {CLIENT, SERVER} && f.addrLen in {1, 2, 4}
    requires |b| >= MIN_BUFFER && Addresses(f) <= b[3..]
    ensures DecodedDestination(g, b) == DecodedControl(Carried(f, g), b, 4 + f.addrLen)
  {
    hide DecodedControl, AddrSize, GetAddr, Value, AddrBytes;
    AddressesOrder(f, b);
    var before := Addr(g.logicalDevice, g.phyAddress);
    AddrBySize(ServerAddr(f), f.addrLen, before);
    if f.sender == CLIENT {
      AddrReads(f.addrLen, f.logicalDevice, f.phyAddress, b[3..], before);
      ClientReads(f.clientAddr, b[3 + f.addrLen..]);
    } else {
      ClientReads(f.clientAddr, b[3..]);
      AddrReads(f.addrLen, f.logicalDevice, f.phyAddress, b[4..], before);
    }
  }

  // What arrives of a frame below 256 bytes, whatever its addresses.
  lemma FrameLands(f: Fields, g: Fields, control: bv8, data: seq<bv8>, b: seq<bv8>, size: nat)
    requires f.sender in {CLIENT, SERVER} && g.sender == f.sender && f.addrLen in {1, 2, 4}
    requires FrameLength(f, data) < 0x100 && Holds(b, f, control, data)
    requires FrameLength(f, data) + 2 <= size <= |b| && |b| >= MIN_BUFFER
    ensures ControlType(control).None? ==> Decoded(g, b, size).0 == ERR
    ensures ControlType(control).Some? ==>
              Decoded(g, b, size) == (OK, Opened(f, Carried(f, Framed(f, g, data)), control, data))
  {
    hide Decoded, DecodedDestination, DecodedControl, Content, Header, Trailer, Frame, Addresses, ControlType, Format;
    hide Opened, AddrBytes, GetAddr, Value, Holds;
    FrameParts(b, f, control, data);
    EnvelopeDecodes(f, g, control, data, b, size);
    AddressesDecode(f, Framed(f, g, data), b);
    ControlDecodes(b, f, Carried(f, Framed(f, g, data)), control, data);
  }

  // The length of a longer frame is not the one that arrives.
  lemma LongFrame(f: Fields, g: Fields, control: bv8, data: seq<bv8>, b: seq<bv8>, size: nat)
    requires f.addrLen in {1, 2, 4} && 0x100 <= FrameLength(f, data) < 0x10000 && Holds(b, f, control, data)
    requires size <= |b| && |b| >= MIN_BUFFER
    ensures ControlType(control).Some? ==> Decoded(g, b, size) != (OK, Received(f, g, control, data))
  {
    hide Decoded, Verdict, Left, Info, Content, Header, Trailer, Frame, Addresses, LengthField, Format, Holds;
    hide ControlType, Poll, Rrr, Sss;
    FrameParts(b, f, control, data);
    assert b[1] == b[1..3][0] && b[2] == b[1..3][1];
    LengthRoundTrip(FrameLength(f, data));
    DecodedVerdict(g, b, size);
  }

  // Main result: what either end sends, the other end decodes to the same values, with the
  // information field where the decoder says it is, exactly when the frame is below 256 bytes,
  // its addresses fit the wire and its control byte is a known one.
  lemma FrameRoundTrip(f: Fields, g: Fields, control: bv8, data: seq<bv8>, b: seq<bv8>, size: nat)
    requires f.sender in {CLIENT, SERVER} && g.sender == f.sender && f.addrLen in {1, 2, 4}
    requires FrameLength(f, data) < 0x10000 && Holds(b, f, control, data)
    requires FrameLength(f, data) + 2 <= size <= |b| && |b| >= MIN_BUFFER
    ensures ControlType(control).Some? && Decoded(g, b, size) == (OK, Received(f, g, control, data))
            <==> Sendable(f, control, data)
    ensures data != [] ==> b[f.addrLen + 7..f.addrLen + 7 + |data|] == data
  {
    hide Decoded, Content, Header, Trailer, Frame, Addresses, ControlType, Format, Representable, Holds, Received;
    hide Opened, Carried;
    FrameParts(b, f, control, data);
    if FrameLength(f, data) < 0x100 {
      FrameLands(f, g, control, data, b, size);
      if ControlType(control).Some? {
        ReceivedWhole(f, g, control, data);
      }
    } else {
      LongFrame(f, g, control, data, b, size);
    }
  }

  // Nothing but the addresses can be lost from a frame below 256 bytes.
  lemma ReceivedWhole(f: Fields, g: Fields, control: bv8, data: seq<bv8>)
    requires f.addrLen in {1, 2, 4} && ControlType(control).Some?
    ensures Opened(f, Carried(f, Framed(f, g, data)), control, data) == Received(f, g, control, data)
            <==> Representable(f.addrLen, f.logicalDevice, f.phyAddress) && Representable(1, f.clientAddr, 0)
  {
    hide ControlType, Poll, Rrr, Sss, AddrBytes, GetAddr, Value, Representable;
    CarriedWhole(f, Framed(f, g, data));
  }

  lemma AddressesOrder(f: Fields, b: seq<bv8>)
    requires f.addrLen in {1, 2, 4} && |b| >= MIN_BUFFER && Addresses(f) <= b[3..]
    ensures f.sender == SERVER ==> ClientAddr(f) <= b[3..] && ServerAddr(f) <= b[4..]
    ensures f.sender != SERVER ==> ServerAddr(f) <= b[3..] && ClientAddr(f) <= b[3 + f.addrLen..]
  {
    hide AddrBytes;
    var n := |Addresses(f)|;
    assert b[3..][..n] == Addresses(f);
    if f.sender == SERVER {
      assert b[3..][1..n] == ServerAddr(f);
      assert b[4..][..f.addrLen] == ServerAddr(f);
    } else {
      assert b[3..][f.addrLen..n] == ClientAddr(f);
      assert b[3 + f.addrLen..][..1] == ClientAddr(f);
    }
  }

  // What hdlc_encode_data sends arrives as an information frame with both counters; they are
  // three-bit numbers.
  lemma DataRoundTrip(f: Fields, g: Fields, data: seq<bv8>, b: seq<bv8>, size: nat)
    requires f.rrr < 8 && f.sss < 8 && f.sender in {CLIENT, SERVER} && g.sender == f.sender
    requires Representable(f.addrLen, f.logicalDevice, f.phyAddress) && Representable(1, f.clientAddr, 0)
    requires FrameLength(f, data) < 0x100 && FrameLength(f, data) + 2 <= size <= |b| && |b| >= MIN_BUFFER
    requires Holds(b, f, DataControl(f.rrr, f.sss), data)
    ensures var (ret, h) := Decoded(g, b, size);
            && ret == OK && h.ptype == TYPE_I && h.rrr == f.rrr && h.sss == f.sss && h.pollFinal == 1
            && h.logicalDevice == f.logicalDevice && h.clientAddr == f.clientAddr && h.addrLen == f.addrLen
            && (f.addrLen != 1 ==> h.phyAddress == f.phyAddress)
            && (data != [] ==> h.dataIndex + h.dataSize <= |b| && b[h.dataIndex..h.dataIndex + h.dataSize] == data)
  {
    hide Decoded, DataControl, ControlType, Rrr, Sss, Poll, Frame, Holds;
    DataControlDecodes(f.rrr, f.sss);
    FrameRoundTrip(f, g, DataControl(f.rrr, f.sss), data, b, size);
  }

  lemma RrRoundTrip(f: Fields, g: Fields, b: seq<bv8>, size: nat)
    requires f.rrr < 8 && f.sender in {CLIENT, SERVER} && g.sender == f.sender
    requires Representable(f.addrLen, f.logicalDevice, f.phyAddress) && Representable(1, f.clientAddr, 0)
    requires FrameLength(f, []) + 2 <= size <= |b| && |b| >= MIN_BUFFER
    requires Holds(b, f, RrControl(f.rrr), [])
    ensures var (ret, h) := Decoded(g, b, size);
            && ret == OK && h.ptype == TYPE_RR && h.rrr == f.rrr && h.pollFinal == 1
            && h.logicalDevice == f.logicalDevice && h.clientAddr == f.clientAddr && h.addrLen == f.addrLen
            && h.dataIndex == g.dataIndex && h.dataSize == g.dataSize
  {
    hide Decoded, RrControl, ControlType, Rrr, Sss, Poll, Frame, Holds;
    RrControlDecodes(f.rrr);
    FrameRoundTrip(f, g, RrControl(f.rrr), [], b, size);
  }

  // ----- what is accepted -----

  // The sizes of the destination and of the source, read from the low bits wherever they lie.
  function Destination(b: seq<bv8>): (n: nat)
    requires |b| >= MIN_BUFFER
    ensures 1 <= n <= 4
  {
    AddrSize(b[3..], 4)
  }

  function Source(b: seq<bv8>): (n: nat)
    requires |b| >= MIN_BUFFER
    ensures 1 <= n <= 4
  {
    AddrSize(b[3 + Destination(b)..], 4)
  }

  // The client's address has one byte, the server's one, two or four.
  predicate Addressed(sender: nat, b: seq<bv8>)
    requires |b| >= MIN_BUFFER
  {
    if sender == CLIENT then Destination(b) in {1, 2, 4} && Source(b) == 1
    else Destination(b) == 1 && Source(b) in {1, 2, 4}
  }

  // Where the control byte ends.
  function HeadEnd(b: seq<bv8>): (c: nat)
    requires |b| >= MIN_BUFFER
    ensures 6 <= c <= 12
  {
    4 + Destination(b) + Source(b)
  }

  // The information field a frame of n bytes with a head of c bytes is taken to have: none, what
  // lies between the header check and the frame check, or, when the head runs into the frame
  // check, a size that has wrapped in 16 bits.
  function Info(n: nat, c: nat): Option<(nat, nat)>
    requires c <= 12
  {
    if n == c + 3 || n == c + 4 then None
    else if n >= c + 5 then Some((c + 2, n - c - 5))
    else Some((c + 2, n + 0x10000 - c - 5))
  }

  // Index and size of the information field after a decoding that found info.
  function Left(info: Option<(nat, nat)>, before: (nat, nat)): (nat, nat)
  {
    if info.Some? then info.value else before
  }

  // The return code of hdlc_decode for a frame in its envelope, by sender and contents.
  function HeadVerdict(sender: nat, b: seq<bv8>): int
    requires |b| >= MIN_BUFFER
  {
    var c := HeadEnd(b);
    if !Addressed(sender, b) then ERR_ADDR
    else if ControlType(b[c - 1]).None? then ERR
    else if Info(SizeField(b), c).None? || Checks(b[1..c + 2]) then OK
    else ERR_HCS
  }

  // Every return code of hdlc_decode.
  function Verdict(sender: nat, b: seq<bv8>, size: nat): int
    requires |b| >= MIN_BUFFER && size <= |b|
  {
    var n := SizeField(b);
    if b[0] != 0x7e then ERR_7E
    else if Masked(b[1], 0xa0) != 0xa0 then ERR_FORMAT
    else if n > size || b[n - 1] != 0x7e then ERR_SIZE
    else if !Checks(Inner(b, n)) then ERR_FCS
    else HeadVerdict(sender, b)
  }

  // A return code, and the frame size and the information field left behind on success.
  predicate Outcome(ret: int, info: Option<(nat, nat)>, g: Fields, r: (int, Fields))
  {
    && r.0 == ret
    && (ret == OK ==> r.1.frameSize == g.frameSize
                      && (r.1.dataIndex, r.1.dataSize) == Left(info, (g.dataIndex, g.dataSize)))
  }

  // The remaining size in 16 bits. It never wraps to 0 or 1: frames have four bytes at least,
  // and heads end at twelve at most.
  lemma InfoOutcome(g: Fields, b: seq<bv8>, ptr: nat)
    requires |b| >= MIN_BUFFER && 6 <= ptr <= 12 && 4 <= g.frameSize < 0x3000
    ensures var info := Info(g.frameSize, ptr);
            Outcome(if info.None? || Checks(b[1..ptr + 2]) then OK else ERR_HCS, info, g, DecodedInfo(g, b, ptr))
  {
    hide Checks;
    var d := g.frameSize - 3 - ptr;
    if d < 0 {
      assert d % 0x10000 == d + 0x10000;
    }
  }

  lemma ControlOutcome(g: Fields, b: seq<bv8>, ptr: nat)
    requires |b| >= MIN_BUFFER && 5 <= ptr <= 11 && 4 <= g.frameSize < 0x3000
    ensures var info := Info(g.frameSize, ptr + 1);
            Outcome(if ControlType(b[ptr]).None? then ERR
                    else if info.None? || Checks(b[1..ptr + 3]) then OK else ERR_HCS,
                    info, g, DecodedControl(g, b, ptr))
  {
    hide Checks, ControlType, Poll, Rrr, Sss, DecodedInfo, Info;
    var cf := b[ptr];
    if ControlType(cf).Some? {
      var g' := g.(pollFinal := Poll(cf), rrr := Rrr(cf), sss := Sss(cf), ptype := ControlType(cf).value);
      InfoOutcome(g', b, ptr + 1);
    }
  }

  // An address is accepted by its size.
  lemma AddrBySize(b: seq<bv8>, size: nat, before: Addr)
    requires size <= |b|
    ensures GetAddr(b, size, before).Some? <==> size in {1, 2, 4}
  {}

  lemma SourceOutcome(g: Fields, b: seq<bv8>)
    requires |b| >= MIN_BUFFER && 4 <= g.frameSize < 0x3000 && g.frameSize == SizeField(b)
    requires if g.sender == CLIENT then Destination(b) in {1, 2, 4} else Destination(b) == 1
    ensures Outcome(HeadVerdict(g.sender, b), Info(g.frameSize, HeadEnd(b)), g, DecodedSource(g, b, 3 + Destination(b)))
  {
    hide Checks, AddrSize, GetAddr, Value, DecodedControl, ControlType, Info, SizeField, Left;
    var ptr, n := 3 + Destination(b), Source(b);
    var before := Addr(g.logicalDevice, g.phyAddress);
    AddrBySize(b[ptr..], n, before);
    var a := GetAddr(b[ptr..], n, before);
    if Addressed(g.sender, b) {
      if g.sender == CLIENT {
        ControlOutcome(g.(clientAddr := Value(b[ptr])), b, ptr + 1);
      } else {
        ControlOutcome(g.(addrLen := n, logicalDevice := a.value.upper, phyAddress := a.value.lower), b, ptr + n);
      }
    }
  }

  lemma DestinationOutcome(g: Fields, b: seq<bv8>)
    requires |b| >= MIN_BUFFER && 4 <= g.frameSize < 0x3000 && g.frameSize == SizeField(b)
    ensures Outcome(HeadVerdict(g.sender, b), Info(g.frameSize, HeadEnd(b)), g, DecodedDestination(g, b))
  {
    hide Checks, AddrSize, GetAddr, Value, DecodedSource, ControlType, Info, SizeField, Left, Source;
    var n := Destination(b);
    var before := Addr(g.logicalDevice, g.phyAddress);
    AddrBySize(b[3..], n, before);
    var a := GetAddr(b[3..], n, before);
    if g.sender == CLIENT {
      if a.Some? {
        SourceOutcome(g.(addrLen := n, logicalDevice := a.value.upper, phyAddress := a.value.lower), b);
      }
    } else if n == 1 {
      SourceOutcome(g.(clientAddr := Value(b[3])), b);
    }
  }

  // Main result: the return code on every buffer, and what every accepted frame leaves as its
  // size and its information field.
  lemma DecodedVerdict(f: Fields, b: seq<bv8>, size: nat)
    requires |b| >= MIN_BUFFER && size <= |b|
    ensures Decoded(f, b, size).0 == Verdict(f.sender, b, size)
    ensures Decoded(f, b, size).0 == OK ==>
              var h := Decoded(f, b, size).1;
              && h.frameSize == SizeField(b)
              && (h.dataIndex, h.dataSize) == Left(Info(SizeField(b), HeadEnd(b)), (f.dataIndex, f.dataSize))
  {
    hide Checks, Masked, LengthField, DecodedDestination, HeadVerdict, HeadEnd, Info, Left;
    LengthSmall(b[1], b[2]);
    var n := SizeField(b);
    if b[0] == 0x7e && Masked(b[1], 0xa0) == 0xa0 && n <= size && b[n - 1] == 0x7e {
      NoShortFrame(b);
      DestinationOutcome(f.(segmentation := if Masked(b[1], 8) == 0 then 0 else 1, frameSize := n), b);
    }
  }

  // Whatever is accepted is delimited by flags and passes its frame check, and its head has the
  // addresses of its direction. A frame with room for its head reports no information field or,
  // after a head that passes its own check, the one that ends where the frame check begins; a
  // shorter one reports a wrapped size behind a head that passes its check all the same.
  lemma AcceptedFrames(f: Fields, b: seq<bv8>, size: nat)
    requires |b| >= MIN_BUFFER && size <= |b| && Decoded(f, b, size).0 == OK
    ensures var n, c := SizeField(b), HeadEnd(b);
            && 4 <= n <= size && b[0] == 0x7e && b[n - 1] == 0x7e && Checks(Inner(b, n))
            && Addressed(f.sender, b) && ControlType(b[c - 1]).Some?
    ensures var h, n, c := Decoded(f, b, size).1, SizeField(b), HeadEnd(b);
            if n == c + 3 || n == c + 4 then h.dataIndex == f.dataIndex && h.dataSize == f.dataSize
            else
              && h.dataIndex == c + 2 && Checks(b[1..c + 2])
              && h.dataIndex + h.dataSize + 3 == if n >= c + 3 then n else n + 0x10000
  {
    hide Checks, Masked, LengthField, Decoded, HeadEnd, Addressed, ControlType;
    DecodedVerdict(f, b, size);
    NoShortFrame(b);
  }

  // The field a frame is taken to have ends where the frame check begins, or there is none,
  // exactly when the frame has room for its head and its frame check.
  lemma InfoEndsAtCheck(n: nat, c: nat)
    requires c <= 12 && 4 <= n < 0x10000
    ensures var info := Info(n, c);
            && ((info.Some? ==> info.value.0 + info.value.1 + 3 == n) <==> n >= c + 3)
            && (n < c + 3 ==> info == Some((c + 2, n - c - 5 + 0x10000)))
            && (info.Some? ==> info.value.0 == c + 2 && info.value.1 < 0x10000)
  {}

  // A frame of six bytes that passes both checks: its head ends on its closing flag, and it
  // reports 65531 bytes of information from behind it.
  const SHORT_FRAME: seq<bv8> := [0x7e, 0xb0, 0x04, 0x0d, 0x73, 0x7e, 0x35, 0x5c, 0, 0, 0, 0, 0, 0, 0]

  lemma ShortFrameAccepted(f: Fields)
    requires f.sender == CLIENT
    ensures var (ret, h) := Decoded(f, SHORT_FRAME, 6);
            ret == OK && h.frameSize == 6 && h.dataIndex == 8 && h.dataSize == 65531
  {
    hide Checks, Decoded, Destination, Source, SizeField, Masked, ControlType, Inner, SHORT_FRAME;
    ShortFrameHead();
    ShortFrameChecks();
    DecodedVerdict(f, SHORT_FRAME, 6);
  }

  lemma ShortFrameChecks()
    ensures Checks(Inner(SHORT_FRAME, 6)) && Checks(SHORT_FRAME[1..8])
  {
    hide Checks, StepByte;
    var c: seq<bv8> := [0xb0, 0x04, 0x0d, 0x73];
    ShortFrameSteps();
    Crc4(INIT, 0xb0, 0x04, 0x0d, 0x73);
    Crc3(0xf0b8, 0x7e, 0x35, 0x5c);
    CrcAppend(INIT, c, [0x7e, 0x35, 0x5c]);
    ShortFrameParts();
    ChecksIffResidue(c);
    ChecksIffResidue(c + [0x7e, 0x35, 0x5c]);
  }

  lemma ShortFrameParts()
    ensures |SHORT_FRAME| == 15 && Inner(SHORT_FRAME, 6) == [0xb0, 0x04, 0x0d, 0x73]
    ensures SHORT_FRAME[1..8] == [0xb0, 0x04, 0x0d, 0x73] + [0x7e, 0x35, 0x5c]
  {
    var c: seq<bv8>, d: seq<bv8> := [0xb0, 0x04, 0x0d, 0x73], [0x7e, 0x35, 0x5c];
    var s := SHORT_FRAME;
    assert s[1..5] == c;
    assert s[1..8] == [s[1], s[2], s[3], s[4], s[5], s[6], s[7]] == c + d;
  }

  lemma ShortFrameSteps()
    ensures StepByte(INIT, 0xb0) == 0xba0c && StepByte(0xba0c, 0x04) == 0x8cf2
    ensures StepByte(0x8cf2, 0x0d) == 0x0ff4 && StepByte(0x0ff4, 0x73) == 0xf0b8
    ensures StepByte(0xf0b8, 0x7e) == 0xa3ca && StepByte(0xa3ca, 0x35) == 0x0fdb && StepByte(0x0fdb, 0x5c) == 0xf0b8
  {}

  lemma CrcNext(v: bv16, x: bv8, s: seq<bv8>)
    ensures Crc(v, [x] + s) == Crc(StepByte(v, x), s)
  {
    hide StepByte;
    assert ([x] + s)[1..] == s;
  }

  lemma Crc3(v: bv16, x: bv8, y: bv8, z: bv8)
    ensures Crc(v, [x, y, z]) == StepByte(StepByte(StepByte(v, x), y), z)
  {
    hide StepByte;
    CrcNext(v, x, [y, z]);
    CrcNext(StepByte(v, x), y, [z]);
    CrcNext(StepByte(StepByte(v, x), y), z, []);
    assert [x] + [y, z] == [x, y, z] && [y] + [z] == [y, z] && [z] + [] == [z];
  }

  lemma Crc4(v: bv16, w: bv8, x: bv8, y: bv8, z: bv8)
    ensures Crc(v, [w, x, y, z]) == StepByte(StepByte(StepByte(StepByte(v, w), x), y), z)
  {
    hide StepByte, Crc;
    CrcNext(v, w, [x, y, z]);
    assert [w] + [x, y, z] == [w, x, y, z];
    Crc3(StepByte(v, w), x, y, z);
  }

  lemma ShortFrameHead()
    ensures |SHORT_FRAME| == 15
    ensures SizeField(SHORT_FRAME) == 6 && Destination(SHORT_FRAME) == 1 && Source(SHORT_FRAME) == 1
    ensures SHORT_FRAME[0] == SHORT_FRAME[5] == 0x7e && Masked(SHORT_FRAME[1], 0xa0) == 0xa0
    ensures ControlType(SHORT_FRAME[5]).Some?
  {}

  lemma LengthSmall(b1: bv8, b2: bv8)
    ensures LengthField(b1, b2) < 0x2000
  {
    assert b1 & 3 <= 3;
  }
}
