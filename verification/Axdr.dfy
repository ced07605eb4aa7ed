// The data scanner of src/csm_axdr_codec.c: a flat loop over the octets of nested values.
module Axdr {
  import opened PacketArray
  import opened Ber

  // ----- the table of tags -----

  // Zero or more octets, or a length that is coded. The source counts SIZE_CODED after 8.
  const SIZE_CODED := 9

  datatype Tag = Tag(tag: Octet, isStruct: bool, size: nat)

  const TAGS: seq<Tag> := [
    Tag(0, false, 0), Tag(1, true, SIZE_CODED), Tag(2, true, SIZE_CODED), Tag(3, false, 1),
    Tag(4, false, SIZE_CODED), Tag(5, false, 4), Tag(6, false, 4), Tag(9, false, SIZE_CODED),
    Tag(10, false, SIZE_CODED), Tag(12, false, SIZE_CODED), Tag(13, false, 1), Tag(15, false, 1),
    Tag(16, false, 2), Tag(17, false, 1), Tag(18, false, 2), Tag(20, false, 8),
    Tag(21, false, 8), Tag(22, false, 1)
  ]

  datatype Kind = Unknown | Fixed(size: nat) | Text | Bits | Group

  function KindOf(tag: Octet): Kind
  {
    if tag == 0 then Fixed(0)
    else if tag == 1 || tag == 2 then Group
    else if tag == 4 then Bits
    else if tag == 9 || tag == 10 || tag == 12 then Text
    else if tag == 3 || tag == 13 || tag == 15 || tag == 17 || tag == 22 then Fixed(1)
    else if tag == 16 || tag == 18 then Fixed(2)
    else if tag == 5 || tag == 6 then Fixed(4)
    else if tag == 20 || tag == 21 then Fixed(8)
    else Unknown
  }

  // The table says what the kinds say.
  predicate Entry(e: Tag)
  {
    match KindOf(e.tag)
    case Unknown => false
    case Fixed(n) => e == Tag(e.tag, false, n)
    case Group => e == Tag(e.tag, true, SIZE_CODED)
    case _ => e == Tag(e.tag, false, SIZE_CODED)
  }

  lemma TableIsKinds(tag: Octet)
    ensures forall i :: 0 <= i < |TAGS| ==> Entry(TAGS[i])
    ensures KindOf(tag) == Unknown <==> forall i :: 0 <= i < |TAGS| ==> TAGS[i].tag != tag
  {
    assert TAGS[0].tag == 0 && TAGS[1].tag == 1 && TAGS[2].tag == 2 && TAGS[3].tag == 3 && TAGS[4].tag == 4
           && TAGS[5].tag == 5;
    assert TAGS[6].tag == 6 && TAGS[7].tag == 9 && TAGS[8].tag == 10 && TAGS[9].tag == 12 && TAGS[10].tag == 13
           && TAGS[11].tag == 15;
    assert TAGS[12].tag == 16 && TAGS[13].tag == 17 && TAGS[14].tag == 18 && TAGS[15].tag == 20 && TAGS[16].tag == 21
           && TAGS[17].tag == 22;
  }

  // Octets of a bit string.
  function BitfieldBytes(bits: nat): nat
    requires bits > 0
  {
    (bits - 1) / 8 + 1
  }

  // The fewest octets that hold so many bits.
  lemma BitfieldFits(bits: nat)
    requires bits > 0
    ensures 8 * (BitfieldBytes(bits) - 1) < bits <= 8 * BitfieldBytes(bits)
  {}

  // The integers of 8, 16, 32 and 64 bits, signed and unsigned, and the other types of one octet.
  lemma Widths()
    ensures KindOf(15) == KindOf(17) == Fixed(8 / 8) && KindOf(16) == KindOf(18) == Fixed(16 / 8)
    ensures KindOf(5) == KindOf(6) == Fixed(32 / 8) && KindOf(20) == KindOf(21) == Fixed(64 / 8)
    ensures KindOf(3) == KindOf(13) == KindOf(22) == Fixed(1) && KindOf(0) == Fixed(0)
  {}

  // ----- the scan -----

  // One call of the callback: tag, size and where the data pointer stands.
  datatype Call = Call(tag: Octet, size: nat, at: nat)

  // What the loop does with the unread octets: the calls, and whether it ends on an error.
  function Scan(s: seq<Octet>, at: nat): (r: (seq<Call>, bool))
    decreases |s|
  {
    if s == [] then ([], false)
    else match KindOf(s[0])
      case Unknown => ([], true)
      case Fixed(n) => Then(Call(s[0], n, at + 1), s, at, 1 + n)
      case kind =>
        var len := ReadLenOf(s[1..]);
        var body := 1 + len.taken;
        if len.value > |s| - body then ([Call(s[0], SIZE_CODED, at + body)], true)
        else Then(Call(s[0], len.value, at + body), s, at, body + Skipped(kind, len.value))
  }

  // The data octets that are jumped over.
  function Skipped(kind: Kind, size: nat): nat
  {
    match kind
    case Group => 0
    case Bits => if size > 0 then BitfieldBytes(size) else 0
    case _ => size
  }

  // A call, and the scan of what follows n octets on.
  function Then(call: Call, s: seq<Octet>, at: nat, n: nat): (seq<Call>, bool)
    requires n > 0 && |s| > 0
    decreases |s|, 0
  {
    var (calls, error) := Scan(Past(s, n), at + n);
    ([call] + calls, error)
  }

  // What is left after n octets, if anything is.
  function Past(s: seq<Octet>, n: nat): (r: seq<Octet>)
    ensures |r| <= |s|
    ensures n > 0 && s != [] ==> |r| < |s|
  {
    if n < |s| then s[n..] else []
  }

  // The search of the table.
  method Lookup(tag: Octet) returns (i: nat)
    ensures i <= |TAGS| && (i == |TAGS| <==> KindOf(tag) == Unknown)
    ensures i < |TAGS| ==> TAGS[i].tag == tag && Entry(TAGS[i])
  {
    hide KindOf, Entry, TAGS;
    TableIsKinds(tag);
    i := 0;
    while i < |TAGS| && TAGS[i].tag != tag
      invariant 0 <= i <= |TAGS|
      invariant forall k :: 0 <= k < i ==> TAGS[k].tag != tag
    {
      i := i + 1;
    }
    if i < |TAGS| {
      EntryKnown(TAGS[i]);
    }
  }

  lemma EntryKnown(e: Tag)
    requires Entry(e)
    ensures KindOf(e.tag) != Unknown
  {}

  lemma EntrySays(e: Tag)
    requires Entry(e)
    ensures var kind := KindOf(e.tag);
            e.isStruct == kind.Group? && e.size == if kind.Fixed? then kind.size else SIZE_CODED
  {}

  // csm_axdr_size: the verdict of the length reader is not looked at.
  method Size(a: CsmArray, size: nat) returns (ret: bool, size': nat)
    requires a.Valid()
    modifies a`rd
    ensures a.Valid()
    ensures var len := ReadLenOf(old(a.Unread()));
            && a.rd == old(a.rd) + len.taken && a.Unread() == old(a.Unread())[len.taken..]
            && ret == (len.value <= |old(a.Unread())| - len.taken)
            && size' == if ret then len.value else size
  {
    hide ReadLenOf;
    ret, size' := false, size;
    var _, length := ReadLen(a);
    if length <= if a.wr > a.rd then a.wr - a.rd else 0 {
      size', ret := length, true;
    }
  }

  lemma ScanHead(s: seq<Octet>, at: nat)
    requires s != []
    ensures match KindOf(s[0])
            case Unknown => Scan(s, at) == ([], true)
            case Fixed(n) => Scan(s, at) == Then(Call(s[0], n, at + 1), s, at, 1 + n)
            case kind =>
              var len := ReadLenOf(s[1..]);
              var body := 1 + len.taken;
              Scan(s, at) == if len.value > |s| - body then ([Call(s[0], SIZE_CODED, at + body)], true)
                             else Then(Call(s[0], len.value, at + body), s, at, body + Skipped(kind, len.value))
  {}

  lemma ScanPast(t: seq<Octet>, at: nat, at': nat)
    requires t == [] || at == at'
    ensures Scan(t, at) == Scan(t, at')
  {}

  lemma BitsTag(tag: Octet)
    ensures KindOf(tag).Bits? <==> tag == 4
  {}

  lemma SizesNotCoded(tag: Octet)
    ensures KindOf(tag).Fixed? ==> KindOf(tag).size <= 8
  {}

  // The jump over the data.
  method Skip(a: CsmArray, tag: Octet, isStruct: bool, size: nat)
    requires a.Valid() && size < 0x1_0000
    requires KindOf(tag) != Unknown && isStruct == KindOf(tag).Group?
             && (KindOf(tag).Fixed? ==> size == KindOf(tag).size)
    modifies a`rd
    ensures a.Valid() && a.rd >= old(a.rd)
    ensures var n := match KindOf(tag) case Fixed(k) => k case kind => Skipped(kind, size);
            && a.Unread() == Past(old(a.Unread()), n)
            && (a.Unread() != [] ==> a.rd == old(a.rd) + n)
  {
    BitsTag(tag);
    if !isStruct && size > 0 {
      var bytes := if tag == 4 then BitfieldBytes(size) else size;
      var _ := a.ReaderJump(bytes);
    }
  }

  // One pass of the loop, the tag already read.
  method Value(a: CsmArray, tag: Octet) returns (calls: seq<Call>, error: bool)
    requires a.Valid() && a.rd >= 1
    modifies a`rd
    ensures a.Valid() && a.rd >= old(a.rd)
    ensures |a.Unread()| <= |old(a.Unread())|
    ensures var here := Scan([tag] + old(a.Unread()), a.offset + old(a.rd) - 1);
            var next := Scan(a.Unread(), a.offset + a.rd);
            here == if error then (calls, true) else (calls + next.0, next.1)
  {
    hide Scan, KindOf, ReadLenOf, Skipped, Past, Entry, TAGS, CsmArray.Unread;
    ghost var rest, at := a.Unread(), a.offset + a.rd - 1;
    ghost var s := [tag] + rest;
    assert s[1..] == rest;
    var i := Lookup(tag);
    ScanHead(s, at);
    if i >= |TAGS| {
      return [], true;
    }
    ghost var kind := KindOf(tag);
    EntrySays(TAGS[i]);
    SizesNotCoded(tag);
    var size := TAGS[i].size;
    error := false;
    if TAGS[i].size == SIZE_CODED {
      var ok;
      ok, size := Size(a, size);
      error := !ok;
    }
    ghost var k, mid := a.rd - old(a.rd), a.Unread();
    calls := [Call(tag, size, a.offset + a.rd)];
    Skip(a, tag, TAGS[i].isStruct, size);
    if !error {
      ghost var n := if kind.Fixed? then size else Skipped(kind, size);
      assert mid == rest[k..];
      PastTwice(s, 1 + k, n);
      ScanPast(a.Unread(), a.offset + a.rd, at + (1 + k + n));
    }
  }

  lemma PastTwice(s: seq<Octet>, k: nat, n: nat)
    requires 1 <= k <= |s|
    ensures s[1..][k - 1..] == s[k..]
    ensures Past(s[k..], n) == Past(s, k + n)
  {}

  // The scanner: it reports no success on any input, and calls back what Scan says.
  method DecodeTags(a: CsmArray) returns (ret: bool, calls: seq<Call>)
    requires a.Valid()
    modifies a`rd
    ensures a.Valid() && !ret
    ensures calls == Scan(old(a.Unread()), a.offset + old(a.rd)).0
    ensures !Scan(old(a.Unread()), a.offset + old(a.rd)).1 ==> a.Unread() == []
  {
    hide Scan, CsmArray.Unread;
    ret, calls := false, [];
    var error := false;
    ghost var whole := Scan(a.Unread(), a.offset + a.rd);
    assert [] + whole.0 == whole.0;
    ghost var start, s := a.rd, a.Unread();
    var got, tag := a.ReadU8();
    assert got ==> s == [tag] + a.Unread();
    ScanNothing(a.offset + a.rd);
    while got && !error
      invariant a.Valid() && a.rd >= start && (got ==> a.rd >= 1)
      invariant error ==> whole == (calls, true)
      invariant !error && got ==>
        var rest := Scan([tag] + a.Unread(), a.offset + a.rd - 1);
        whole == (calls + rest.0, rest.1)
      invariant !error && !got ==> a.Unread() == [] && whole == (calls, false)
      decreases !error, |a.Unread()| + if got then 1 else 0
    {
      var more;
      more, error := Value(a, tag);
      ghost var here := Scan(a.Unread(), a.offset + a.rd);
      ghost var before := calls;
      calls := calls + more;
      assert !error ==> before + (more + here.0) == calls + here.0;
      ghost var t := a.Unread();
      got, tag := a.ReadU8();
      assert if got then t == [tag] + a.Unread() else t == [];
      assert calls + [] == calls;
      ScanNothing(a.offset + a.rd);
    }
  }

  lemma ScanNothing(at: nat)
    ensures Scan([], at) == ([], false)
  {}
}
