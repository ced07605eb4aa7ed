// The frames of hdlc/hdlc.c in numbers: what each field of an accepted frame is on the wire, what
// the encoder writes, and the frame quoted at the head of the source.
module HdlcWire {
  import opened Wrappers
  import opened Numbers
  import opened Fcs
  import opened Hdlc

  // ----- the control byte -----

  // The nine types by the value of the control byte, with the poll bit clear or set.
  function TypeOf(n: nat): Option<nat>
  {
    if n % 2 == 0 then Some(TYPE_I)
    else if n % 16 == 1 then Some(TYPE_RR)
    else if n % 16 == 5 then Some(TYPE_RNR)
    else if n == 0x83 || n == 0x93 then Some(TYPE_SNRM)
    else if n == 0x43 || n == 0x53 then Some(TYPE_DISC)
    else if n == 0x63 || n == 0x73 then Some(TYPE_UA)
    else if n == 0x0f || n == 0x1f then Some(TYPE_DM)
    else if n == 0x87 || n == 0x97 then Some(TYPE_FRMR)
    else if n == 0x03 || n == 0x13 then Some(TYPE_UI)
    else None
  }

  lemma ControlTypes(cf: bv8)
    ensures ControlType(cf) == TypeOf(Digit(cf))
  {
    LowBits(cf);
    Unnumbered(cf);
  }

  lemma LowBits(cf: bv8)
    ensures Digit(cf) % 2 == 0 <==> cf & 0x01 == 0x00
    ensures Digit(cf) % 16 == 1 <==> cf & 0x0f == 0x01
    ensures Digit(cf) % 16 == 5 <==> cf & 0x0f == 0x05
  {}

  lemma Unnumbered(cf: bv8)
    ensures cf & 0xef == 0x83 <==> Digit(cf) == 0x83 || Digit(cf) == 0x93
    ensures cf & 0xef == 0x43 <==> Digit(cf) == 0x43 || Digit(cf) == 0x53
    ensures cf & 0xef == 0x63 <==> Digit(cf) == 0x63 || Digit(cf) == 0x73
    ensures cf & 0xef == 0x0f <==> Digit(cf) == 0x0f || Digit(cf) == 0x1f
    ensures cf & 0xef == 0x87 <==> Digit(cf) == 0x87 || Digit(cf) == 0x97
    ensures cf & 0xef == 0x03 <==> Digit(cf) == 0x03 || Digit(cf) == 0x13
  {
    hide Digit;
    DigitsOf(cf);
  }

  lemma DigitsOf(cf: bv8)
    ensures Digit(cf) == 0x83 <==> cf == 0x83
    ensures Digit(cf) == 0x93 <==> cf == 0x93
    ensures Digit(cf) == 0x43 <==> cf == 0x43
    ensures Digit(cf) == 0x53 <==> cf == 0x53
    ensures Digit(cf) == 0x63 <==> cf == 0x63
    ensures Digit(cf) == 0x73 <==> cf == 0x73
    ensures Digit(cf) == 0x0f <==> cf == 0x0f
    ensures Digit(cf) == 0x1f <==> cf == 0x1f
    ensures Digit(cf) == 0x87 <==> cf == 0x87
    ensures Digit(cf) == 0x97 <==> cf == 0x97
    ensures Digit(cf) == 0x03 <==> cf == 0x03
    ensures Digit(cf) == 0x13 <==> cf == 0x13
  {}

  // The counters and the poll bit.
  lemma ControlFields(cf: bv8)
    ensures Digit(Rrr(cf)) == Digit(cf) / 32 && Digit(Sss(cf)) == Digit(cf) / 2 % 8
    ensures Digit(Poll(cf)) == Digit(cf) / 16 % 2
  {
    hide Digit;
    var h := cf >> 1;
    HalfDigit(cf);
    HalfDigit(h);
    HalfDigit(h >> 1);
    HalfDigit(h >> 1 >> 1);
    HalfDigit(h >> 1 >> 1 >> 1);
    ShiftsOf(cf);
    LowThree(h);
    DigitOf(0);
    DigitOf(1);
  }

  lemma ShiftsOf(cf: bv8)
    ensures Rrr(cf) == cf >> 1 >> 1 >> 1 >> 1 >> 1 && Sss(cf) == (cf >> 1) & 7
    ensures Poll(cf) == if (cf >> 1 >> 1 >> 1 >> 1) & 1 != 0 then 1 else 0
  {}

  lemma LowThree(b: bv8)
    ensures Digit(b & 7) == Digit(b) % 8
  {}

  // What the encoders write.
  lemma ControlBytes(rrr: bv8, sss: bv8)
    requires rrr < 8 && sss < 8
    ensures Digit(DataControl(rrr, sss)) == 32 * Digit(rrr) + 16 + 2 * Digit(sss)
    ensures Digit(RrControl(rrr)) == 32 * Digit(rrr) + 17
  {}

  // ----- addresses -----

  function Hi8(v: bv16): bv8 { ((v >> 8) & 0xff) as bv8 }

  // A 16-bit value, from its two bytes.
  function Number16(v: bv16): nat
  {
    Digit(Hi8(v)) * 0x100 + Digit(Lo8(v))
  }

  lemma ValueReads(b: bv8)
    ensures Number16(Value(b)) == Digit(b) / 2
  {
    hide Digit;
    HalfDigit(b);
    DigitOf(0);
    ValueParts(b);
  }

  lemma ValueParts(b: bv8)
    ensures Hi8(Value(b)) == 0 && Lo8(Value(b)) == b >> 1
  {}

  lemma Addr16Reads(a: bv8, b: bv8)
    ensures Number16(Addr16(a, b)) == Digit(a) / 2 * 0x100 + Digit(b) / 2
  {
    hide Digit;
    HalfDigit(a);
    HalfDigit(b);
    Addr16Parts(a, b);
  }

  lemma Addr16Parts(a: bv8, b: bv8)
    ensures Hi8(Addr16(a, b)) == a >> 1 && Lo8(Addr16(a, b)) == b >> 1
  {}

  // The address read from n bytes: the logical device first, the physical address behind it.
  lemma AddressReads(b: seq<bv8>, n: nat, before: Addr)
    requires n in {1, 2, 4} && n <= |b|
    ensures GetAddr(b, n, before).Some?
    ensures var a := GetAddr(b, n, before).value;
            && (n == 1 ==> Number16(a.upper) == Digit(b[0]) / 2 && a.lower == before.lower)
            && (n == 2 ==> Number16(a.upper) == Digit(b[0]) / 2 && Number16(a.lower) == Digit(b[1]) / 2)
            && (n == 4 ==> Number16(a.upper) == Digit(b[0]) / 2 * 0x100 + Digit(b[1]) / 2
                           && Number16(a.lower) == Digit(b[2]) / 2 * 0x100 + Digit(b[3]) / 2)
  {
    hide Number16, Digit, Value, Addr16;
    ValueReads(b[0]);
    if n == 2 {
      ValueReads(b[1]);
    } else if n == 4 {
      Addr16Reads(b[0], b[1]);
      Addr16Reads(b[2], b[3]);
    }
  }

  // ----- the length subfield -----

  lemma LengthReads(b1: bv8, b2: bv8)
    ensures LengthField(b1, b2) == Digit(b1) % 4 * 0x800 + Digit(b2)
  {
    hide Digit;
    LowTwo(b1);
    SecondByte(b2);
  }

  // The segmentation bit, and the two bits that tell the format.
  lemma FormatBits(b: bv8)
    ensures Masked(b, 8) == 0 <==> Digit(b) / 8 % 2 == 0
    ensures Masked(b, 0xa0) == 0xa0 <==> Digit(b) / 128 % 2 == 1 && Digit(b) / 32 % 2 == 1
  {
    hide Digit;
    var h := b >> 1 >> 1 >> 1;
    BitsOf(b);
    HalfDigit(b);
    HalfDigit(b >> 1);
    HalfDigit(b >> 1 >> 1);
    HalfDigit(h);
    HalfDigit(h >> 1);
    HalfDigit(h >> 1 >> 1);
    HalfDigit(h >> 1 >> 1 >> 1);
    HalfDigit(h >> 1 >> 1 >> 1 >> 1);
    Halvings(Digit(b));
  }

  lemma Halvings(d: nat)
    ensures d / 2 / 2 / 2 == d / 8 && d / 8 / 2 / 2 == d / 32 && d / 32 / 2 / 2 == d / 128
  {}

  lemma SecondByte(b: bv8)
    ensures b as nat == Digit(b)
  {}

  lemma LowTwo(b: bv8)
    ensures (b & 3) as nat == Digit(b) % 4
  {}

  lemma BitsOf(b: bv8)
    ensures Masked(b, 8) == 0 <==> (b >> 1 >> 1 >> 1) & 1 == 0
    ensures Masked(b, 0xa0) == 0xa0
            <==> (b >> 1 >> 1 >> 1 >> 1 >> 1) & 1 != 0 && (b >> 1 >> 1 >> 1 >> 1 >> 1 >> 1 >> 1) & 1 != 0
  {}

  // The format bits 101, and the length modulo 2^11.
  lemma FormatBytes(len: nat)
    requires len < 0x10000
    ensures BigEndian(Format(len)) == 0xa000 + len % 0x800
  {
    hide BigEndian, Digit;
    DigitOf(len % 0x100);
    FormatHigh(len / 0x100 % 8);
    BigEndian2(0xa0 + (len / 0x100 % 8) as bv8, (len % 0x100) as bv8);
    ElevenBits(len);
  }

  lemma ElevenBits(len: nat)
    ensures len % 0x800 == len / 0x100 % 8 * 0x100 + len % 0x100
  {}

  lemma FormatHigh(k: nat)
    requires k < 8
    ensures Digit(0xa0 + k as bv8) == 0xa0 + k
  {}

  lemma BigEndian2(a: bv8, b: bv8)
    ensures BigEndian([a, b]) == Digit(a) * 0x100 + Digit(b)
  {
    assert [a, b][..1] == [a];
    assert BigEndian([a]) == Digit(a);
  }

  // ----- accepted frames -----

  // Where the server's address begins, how long it is, and where the client's is.
  function ServerAt(sender: nat): nat { if sender == CLIENT then 3 else 4 }

  function ServerLength(sender: nat, b: seq<bv8>): nat
    requires |b| >= MIN_BUFFER
  {
    if sender == CLIENT then Destination(b) else Source(b)
  }

  function ClientAt(sender: nat, b: seq<bv8>): nat
    requires |b| >= MIN_BUFFER
  {
    if sender == CLIENT then 3 + Destination(b) else 3
  }

  // The fields the head of an accepted frame leaves.
  predicate HeadRead(f: Fields, h: Fields, b: seq<bv8>)
    requires |b| >= MIN_BUFFER && Addressed(f.sender, b)
  {
    var at, n, cf := ServerAt(f.sender), ServerLength(f.sender, b), b[HeadEnd(b) - 1];
    && h.sender == f.sender && h.addrLen == n
    && GetAddr(b[at..], n, Addr(f.logicalDevice, f.phyAddress)) == Some(Addr(h.logicalDevice, h.phyAddress))
    && h.clientAddr == Value(b[ClientAt(f.sender, b)])
    && ControlType(cf) == Some(h.ptype)
    && h.pollFinal == Poll(cf) && h.rrr == Rrr(cf) && h.sss == Sss(cf)
  }

  lemma ControlHead(g: Fields, b: seq<bv8>, ptr: nat)
    requires |b| >= MIN_BUFFER && ptr <= 11 && DecodedControl(g, b, ptr).0 == OK
    ensures var h, cf := DecodedControl(g, b, ptr).1, b[ptr];
            && ControlType(cf).Some?
            && h == g.(ptype := ControlType(cf).value, pollFinal := Poll(cf), rrr := Rrr(cf), sss := Sss(cf),
                       dataIndex := h.dataIndex, dataSize := h.dataSize)
  {
    hide ControlType, Poll, Rrr, Sss, Checks;
  }

  lemma SourceHead(f: Fields, g: Fields, b: seq<bv8>)
    requires |b| >= MIN_BUFFER && Addressed(f.sender, b) && g.sender == f.sender
    requires DecodedSource(g, b, 3 + Destination(b)).0 == OK
    requires if f.sender == CLIENT
             then g.addrLen == Destination(b)
                  && GetAddr(b[3..], Destination(b), Addr(f.logicalDevice, f.phyAddress))
                     == Some(Addr(g.logicalDevice, g.phyAddress))
             else g.clientAddr == Value(b[3]) && g.logicalDevice == f.logicalDevice && g.phyAddress == f.phyAddress
    ensures var h := DecodedSource(g, b, 3 + Destination(b)).1;
            HeadRead(f, h, b) && h.segmentation == g.segmentation && h.frameSize == g.frameSize
  {
    hide AddrSize, GetAddr, Value, DecodedControl, ControlType, Poll, Rrr, Sss;
    var ptr, n := 3 + Destination(b), Source(b);
    var a := GetAddr(b[ptr..], n, Addr(g.logicalDevice, g.phyAddress));
    if f.sender == CLIENT {
      ControlHead(g.(clientAddr := Value(b[ptr])), b, ptr + 1);
    } else {
      AddrBySize(b[ptr..], n, Addr(g.logicalDevice, g.phyAddress));
      ControlHead(g.(addrLen := n, logicalDevice := a.value.upper, phyAddress := a.value.lower), b, ptr + n);
    }
  }

  lemma DestinationHead(g: Fields, b: seq<bv8>)
    requires |b| >= MIN_BUFFER && Addressed(g.sender, b) && DecodedDestination(g, b).0 == OK
    ensures var h := DecodedDestination(g, b).1;
            HeadRead(g, h, b) && h.segmentation == g.segmentation && h.frameSize == g.frameSize
  {
    hide AddrSize, GetAddr, Value, DecodedSource, HeadRead, Source;
    var n := Destination(b);
    var a := GetAddr(b[3..], n, Addr(g.logicalDevice, g.phyAddress));
    if g.sender == CLIENT {
      AddrBySize(b[3..], n, Addr(g.logicalDevice, g.phyAddress));
      SourceHead(g, g.(addrLen := n, logicalDevice := a.value.upper, phyAddress := a.value.lower), b);
    } else {
      SourceHead(g, g.(clientAddr := Value(b[3])), b);
    }
  }

  lemma AcceptedHead(f: Fields, b: seq<bv8>, size: nat)
    requires |b| >= MIN_BUFFER && size <= |b| && Decoded(f, b, size).0 == OK
    ensures Addressed(f.sender, b)
    ensures var h := Decoded(f, b, size).1;
            && HeadRead(f, h, b) && h.frameSize == SizeField(b)
            && h.segmentation == if Masked(b[1], 8) == 0 then 0 else 1
  {
    hide Checks, Masked, LengthField, DecodedDestination, HeadRead, Addressed;
    AcceptedFrames(f, b, size);
    NoShortFrame(b);
    DestinationHead(f.(segmentation := if Masked(b[1], 8) == 0 then 0 else 1, frameSize := SizeField(b)), b);
    HeadReadSame(f, f.(segmentation := if Masked(b[1], 8) == 0 then 0 else 1, frameSize := SizeField(b)),
                 Decoded(f, b, size).1, b);
  }

  lemma HeadReadSame(f: Fields, g: Fields, h: Fields, b: seq<bv8>)
    requires |b| >= MIN_BUFFER && Addressed(f.sender, b) && g.sender == f.sender
    requires g.logicalDevice == f.logicalDevice && g.phyAddress == f.phyAddress && HeadRead(g, h, b)
    ensures HeadRead(f, h, b)
  {
    hide GetAddr, ControlType;
  }

  // Main result: what every accepted frame leaves, in the numbers that stand on the wire: the size,
  // the segmentation bit, the type, the poll bit, both counters and both addresses.
  lemma AcceptedFields(f: Fields, b: seq<bv8>, size: nat)
    requires |b| >= MIN_BUFFER && size <= |b| && Decoded(f, b, size).0 == OK
    ensures var h, cf := Decoded(f, b, size).1, Digit(b[HeadEnd(b) - 1]);
            var at, n := ServerAt(f.sender), ServerLength(f.sender, b);
            && h.frameSize == Digit(b[1]) % 4 * 0x800 + Digit(b[2]) + 2
            && Digit(h.segmentation) == Digit(b[1]) / 8 % 2
            && Digit(h.pollFinal) == cf / 16 % 2 && Digit(h.rrr) == cf / 32 && Digit(h.sss) == cf / 2 % 8
            && h.addrLen == n && n in {1, 2, 4}
            && Number16(h.clientAddr) == Digit(b[ClientAt(f.sender, b)]) / 2
            && Number16(h.logicalDevice) == (if n == 4 then Digit(b[at]) / 2 * 0x100 + Digit(b[at + 1]) / 2
                                             else Digit(b[at]) / 2)
            && (n == 1 ==> h.phyAddress == f.phyAddress)
            && (n == 2 ==> Number16(h.phyAddress) == Digit(b[at + 1]) / 2)
            && (n == 4 ==> Number16(h.phyAddress) == Digit(b[at + 2]) / 2 * 0x100 + Digit(b[at + 3]) / 2)
    ensures ControlType(b[HeadEnd(b) - 1]) == Some(Decoded(f, b, size).1.ptype)
  {
    hide Decoded, GetAddr, Value, ControlType, Poll, Rrr, Sss, Digit, Masked, LengthField, Number16, AddrSize;
    AcceptedHead(f, b, size);
    var at, n := ServerAt(f.sender), ServerLength(f.sender, b);
    LengthReads(b[1], b[2]);
    FormatBits(b[1]);
    ControlFields(b[HeadEnd(b) - 1]);
    AddressReads(b[at..], n, Addr(f.logicalDevice, f.phyAddress));
    ValueReads(b[ClientAt(f.sender, b)]);
    DigitOf(0);
    DigitOf(1);
  }

  // The types of accepted frames, by the control byte.
  lemma AcceptedTypes(f: Fields, b: seq<bv8>, size: nat)
    requires |b| >= MIN_BUFFER && size <= |b| && Decoded(f, b, size).0 == OK
    ensures TypeIs(Digit(b[HeadEnd(b) - 1]), Decoded(f, b, size).1.ptype)
  {
    hide Decoded, ControlType, Digit, HeadEnd, TypeOf, TypeIs;
    AcceptedFields(f, b, size);
    ControlTypes(b[HeadEnd(b) - 1]);
    TypeExactly(Digit(b[HeadEnd(b) - 1]));
  }

  // The nine types, each exactly for its control bytes.
  predicate TypeIs(n: nat, t: nat)
  {
    && (t == TYPE_I <==> n % 2 == 0) && (t == TYPE_RR <==> n % 16 == 1) && (t == TYPE_RNR <==> n % 16 == 5)
    && (t == TYPE_SNRM <==> n == 0x83 || n == 0x93) && (t == TYPE_DISC <==> n == 0x43 || n == 0x53)
    && (t == TYPE_UA <==> n == 0x63 || n == 0x73) && (t == TYPE_DM <==> n == 0x0f || n == 0x1f)
    && (t == TYPE_FRMR <==> n == 0x87 || n == 0x97) && (t == TYPE_UI <==> n == 0x03 || n == 0x13)
  }

  lemma TypeExactly(n: nat)
    requires TypeOf(n).Some?
    ensures TypeIs(n, TypeOf(n).value)
  {}

  // Any other control byte is refused, once the envelope and the addresses are accepted.
  lemma UnknownControl(f: Fields, b: seq<bv8>, size: nat)
    requires |b| >= MIN_BUFFER && size <= |b| && Decoded(f, b, size).0 == ERR
    ensures Addressed(f.sender, b)
    ensures var n := Digit(b[HeadEnd(b) - 1]);
            && n % 2 == 1 && n % 16 != 1 && n % 16 != 5
            && n !in {0x83, 0x93, 0x43, 0x53, 0x63, 0x73, 0x0f, 0x1f, 0x87, 0x97, 0x03, 0x13}
  {
    hide Decoded, ControlType, Digit, Checks, Addressed, HeadEnd, Info;
    DecodedVerdict(f, b, size);
    ControlTypes(b[HeadEnd(b) - 1]);
  }

  // ----- refused frames -----

  // What a refused frame leaves: nothing before its size is read; then the segmentation bit and
  // the size; the poll bit and the counters once its control byte is read, whatever it is; the
  // type once that is known; and never an information field.
  lemma RefusedFields(f: Fields, b: seq<bv8>, size: nat)
    requires |b| >= MIN_BUFFER && size <= |b|
    ensures var (ret, h) := Decoded(f, b, size);
            var read := f.(segmentation := if Masked(b[1], 8) == 0 then 0 else 1, frameSize := SizeField(b));
            var cf := b[HeadEnd(b) - 1];
            && (ret == ERR_7E || ret == ERR_FORMAT ==> h == f)
            && (ret == ERR_SIZE || ret == ERR_FCS ==> h == read)
            && (ret == ERR_ADDR ==>
                  h == read.(addrLen := h.addrLen, logicalDevice := h.logicalDevice, phyAddress := h.phyAddress,
                             clientAddr := h.clientAddr))
            && (ret == ERR ==>
                  h == read.(addrLen := h.addrLen, logicalDevice := h.logicalDevice, phyAddress := h.phyAddress,
                             clientAddr := h.clientAddr, pollFinal := Poll(cf), rrr := Rrr(cf), sss := Sss(cf)))
            && (ret == ERR_HCS ==>
                  && ControlType(cf) == Some(h.ptype)
                  && h == read.(addrLen := h.addrLen, logicalDevice := h.logicalDevice, phyAddress := h.phyAddress,
                                clientAddr := h.clientAddr, pollFinal := Poll(cf), rrr := Rrr(cf), sss := Sss(cf),
                                ptype := h.ptype))
  {
    hide Checks, Masked, LengthField, DecodedDestination, AddrSize, ControlType, Poll, Rrr, Sss;
    var n := SizeField(b);
    if b[0] == 0x7e && Masked(b[1], 0xa0) == 0xa0 && n <= size && b[n - 1] == 0x7e {
      NoShortFrame(b);
      RefusedDestination(f.(segmentation := if Masked(b[1], 8) == 0 then 0 else 1, frameSize := n), b);
    }
  }

  // The same from the destination on.
  predicate Refused(g: Fields, b: seq<bv8>, r: (int, Fields))
    requires |b| >= MIN_BUFFER
  {
    var (ret, h) := r;
    var cf := b[HeadEnd(b) - 1];
    var addressed := g.(addrLen := h.addrLen, logicalDevice := h.logicalDevice, phyAddress := h.phyAddress,
                        clientAddr := h.clientAddr);
    && ret in {OK, ERR_ADDR, ERR, ERR_HCS}
    && (ret == ERR_ADDR ==> h == addressed)
    && (ret == ERR ==> h == addressed.(pollFinal := Poll(cf), rrr := Rrr(cf), sss := Sss(cf)))
    && (ret == ERR_HCS ==>
          && ControlType(cf) == Some(h.ptype)
          && h == addressed.(pollFinal := Poll(cf), rrr := Rrr(cf), sss := Sss(cf), ptype := h.ptype))
  }

  lemma RefusedControl(g: Fields, b: seq<bv8>)
    requires |b| >= MIN_BUFFER && HeadEnd(b) <= 12
    ensures Refused(g, b, DecodedControl(g, b, HeadEnd(b) - 1))
  {
    hide Checks, HeadEnd, ControlType, Poll, Rrr, Sss;
  }

  lemma RefusedSource(g: Fields, b: seq<bv8>)
    requires |b| >= MIN_BUFFER && Destination(b) <= 4
    ensures Refused(g, b, DecodedSource(g, b, 3 + Destination(b)))
  {
    hide AddrSize, GetAddr, Value, DecodedControl, ControlType, Poll, Rrr, Sss;
    var ptr, n := 3 + Destination(b), Source(b);
    var a := GetAddr(b[ptr..], n, Addr(g.logicalDevice, g.phyAddress));
    if g.sender == CLIENT {
      RefusedControl(g.(clientAddr := Value(b[ptr])), b);
    } else if a.Some? {
      RefusedControl(g.(addrLen := n, logicalDevice := a.value.upper, phyAddress := a.value.lower), b);
    }
  }

  lemma RefusedDestination(g: Fields, b: seq<bv8>)
    requires |b| >= MIN_BUFFER
    ensures Refused(g, b, DecodedDestination(g, b))
  {
    hide AddrSize, GetAddr, Value, DecodedSource, ControlType, Poll, Rrr, Sss, HeadEnd;
    var n := Destination(b);
    var a := GetAddr(b[3..], n, Addr(g.logicalDevice, g.phyAddress));
    if g.sender == CLIENT {
      if a.Some? {
        RefusedSource(g.(addrLen := n, logicalDevice := a.value.upper, phyAddress := a.value.lower), b);
      }
    } else if n == 1 {
      RefusedSource(g.(clientAddr := Value(b[3])), b);
    }
  }

  // ----- the frame quoted at the head of the source -----

  // A connection request from client 120 to the physical address 17 of logical device 1.
  const SNRM_FRAME: seq<bv8> := [0x7e, 0xa0, 0x0a, 0x00, 0x02, 0x00, 0x23, 0xf1, 0x93, 0x23, 0x2e, 0x7e]

  function Requester(f: Fields): Fields
  {
    f.(sender := 0, addrLen := 4, logicalDevice := 1, phyAddress := 17, clientAddr := 120)
  }

  lemma QuotedSteps()
    ensures StepByte(INIT, 0xa0) == 0xaa8d && StepByte(0xaa8d, 0x0a) == 0xf01d && StepByte(0xf01d, 0x00) == 0xcb94
    ensures StepByte(0xcb94, 0x02) == 0xf174 && StepByte(0xf174, 0x00) == 0x3552 && StepByte(0x3552, 0x23) == 0x623b
    ensures StepByte(0x623b, 0xf1) == 0x6934 && StepByte(0x6934, 0x93) == 0xd1dc
  {}

  lemma QuotedTrailer()
    ensures Trailer([0xa0, 0x0a, 0x00, 0x02] + [0x00, 0x23, 0xf1, 0x93]) == [0x23, 0x2e]
  {
    hide StepByte;
    QuotedSteps();
    Crc4(INIT, 0xa0, 0x0a, 0x00, 0x02);
    Crc4(0xf174, 0x00, 0x23, 0xf1, 0x93);
    CrcAppend(INIT, [0xa0, 0x0a, 0x00, 0x02], [0x00, 0x23, 0xf1, 0x93]);
    assert Low(Xor16(0xd1dc, 0xffff)) == [0x23, 0x2e];
  }

  lemma QuotedHeader(f: Fields)
    ensures var g := Requester(f);
            && FrameLength(g, []) == 10 && Format(10) == [0xa0, 0x0a] && Addresses(g) == [0x00, 0x02, 0x00, 0x23, 0xf1]
  {}

  // Main result: the encoder writes the quoted frame, and the decoder reads it as a connection
  // request with these addresses and the poll bit set.
  lemma QuotedFrame(f: Fields, b: seq<bv8>, size: nat)
    requires f.sender == 0 && |b| >= MIN_BUFFER && 12 <= size <= |b| && SNRM_FRAME <= b
    ensures Frame(Requester(f), 0x93, []) == SNRM_FRAME
    ensures Decoded(f, b, size) == (OK, Requester(f).(ptype := TYPE_SNRM, rrr := 4, sss := 1, pollFinal := 1,
                                                      segmentation := 0, frameSize := 12))
  {
    hide Decoded, Trailer, StepByte, Format, Addresses;
    var g := Requester(f);
    QuotedTrailer();
    QuotedHeader(f);
    var c := Content(g, 0x93, []);
    assert c == [0xa0, 0x0a, 0x00, 0x02] + [0x00, 0x23, 0xf1, 0x93];
    assert Frame(g, 0x93, []) == [0x7e] + c + [0x23, 0x2e] + [0x7e];
    FrameRoundTrip(g, f, 0x93, [], b, size);
    QuotedControl();
  }

  lemma QuotedControl()
    ensures ControlType(0x93) == Some(TYPE_SNRM) && Rrr(0x93) == 4 && Sss(0x93) == 1 && Poll(0x93) == 1
    ensures Representable(4, 1, 17) && Representable(1, 120, 0)
  {}
}
