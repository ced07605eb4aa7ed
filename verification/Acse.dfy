// The AARE and AARQ encoders of src/csm_association.c: chains of field encoders over one packet,
// with lengths written back once the contents are known.
module Acse {
  import opened Wrappers
  import opened Memory
  import opened PacketArray
  import opened Ber
  import opened Tlv

  const AARQ: Octet := 0x60
  const AARE: Octet := 0x61
  const PDU_SIZE := 1024
  const OID: seq<Octet> := [0x60, 0x85, 0x74, 0x05, 0x08]

  // The control function of an association.
  datatype Control = Inactive | Idle | Pending | Associated | ReleasePending

  // csm_asso_state: the challenges have room for 64 octets.
  datatype Asso = Asso(cf: Control, ref: Octet, auth: Octet, result: Octet,
                       ctos: seq<Octet>, ctosSize: nat, stoc: seq<Octet>, stocSize: nat)

  predicate Sane(s: Asso)
  {
    |s.ctos| == |s.stoc| == 64 && s.ctosSize <= 64 && s.stocSize <= 64
  }

  // What the encoders take from outside: the configured conformance, the own title, and the
  // octets and the size drawn for a challenge.
  datatype Outside = Outside(conformance: nat, title: seq<Octet>, drawn: seq<Octet>, size: nat, password: seq<Octet>)

  predicate Fair(o: Outside)
  {
    |o.title| == 8 && |o.drawn| == 64 && 8 <= o.size <= 64 && |o.password| == 8 && o.conformance < 0x1_0000_0000
  }

  // A challenge buffer whose first n octets are new.
  function Filled(buffer: seq<Octet>, n: nat, s: seq<Octet>): (r: seq<Octet>)
    requires |buffer| == 64 && n <= |s| && n <= 64
    ensures |r| == 64
  {
    s[..n] + buffer[n..]
  }

  // The server answers with a challenge as long as the client's.
  function Answering(s: Asso, o: Outside): (r: Asso)
    requires Sane(s) && Fair(o)
    ensures Sane(r)
  {
    s.(stoc := Filled(s.stoc, s.ctosSize, o.drawn), stocSize := s.ctosSize)
  }

  // The client sends its password or a challenge.
  function Calling(s: Asso, o: Outside): (r: Asso)
    requires Sane(s) && Fair(o)
    ensures Sane(r)
  {
    if s.auth == 1 then s.(ctos := Filled(s.ctos, 8, o.password), ctosSize := 8)
    else s.(ctos := Filled(s.ctos, o.size, o.drawn), ctosSize := o.size)
  }

  // ----- the messages as trees -----

  function Oid(name: Octet, id: Octet): Tree { Prim(6, OID + [name, id]) }

  function ContextName(ref: Octet): Tree { Cons(0xa1, [Oid(1, ref)]) }

  function Result(s: Asso): Octet { if s.cf == Idle then 1 else 0 }

  function ResultField(result: Octet): Tree { Cons(0xa2, [Prim(2, [result])]) }

  function Diagnostic(result: Octet): Tree { Cons(0xa3, [Cons(0xa1, [Prim(2, [result])])]) }

  function Title(title: seq<Octet>): Tree { Cons(0xa4, [Prim(4, title)]) }

  function Requirements(tag: Octet): Tree { Prim(tag, [7, 0x80]) }

  function Mechanism(tag: Octet, auth: Octet): Tree { Prim(tag, OID + [2, auth]) }

  function AuthValue(tag: Octet, value: seq<Octet>): Tree { Cons(tag, [Prim(0x80, value)]) }

  function Block(value: nat): seq<Octet>
  {
    [value / 0x10000 % 0x100, value / 0x100 % 0x100, value % 0x100]
  }

  function InitiateResponse(conformance: nat, ref: Octet): (r: seq<Octet>)
    ensures |r| == 14
  {
    [8, 0, 6, 0x5f, 0x1f, 4, 0] + Block(conformance) + [PDU_SIZE / 0x100, PDU_SIZE % 0x100]
    + if ref == 1 || ref == 3 then [0, 7] else [0xfa, 0]
  }

  const INITIATE_REQUEST: seq<Octet> := [1, 0, 0, 0, 6, 0x5f, 0x1f, 4, 0, 0xff, 0xff, 0xff, 0xff, 0xff]

  function UserInfo(initiate: seq<Octet>): Tree { Cons(0xbe, [Prim(4, initiate)]) }

  function AareTrees(s: Asso, o: Outside): seq<Tree>
    requires Sane(s) && Fair(o)
  {
    [ContextName(s.ref), ResultField(Result(s)), Diagnostic(s.result)]
    + (if s.auth == 0 then []
       else [Title(o.title), Requirements(0x88), Mechanism(0x89, s.auth), AuthValue(0xaa, o.drawn[..s.ctosSize])])
    + [UserInfo(InitiateResponse(o.conformance, s.ref))]
  }

  function AarqTrees(s: Asso, o: Outside): seq<Tree>
    requires Sane(s) && Fair(o)
  {
    var c := Calling(s, o);
    [ContextName(s.ref)]
    + (if s.auth == 0 then []
       else [Requirements(0x8a), Mechanism(0x8b, s.auth), AuthValue(0xac, c.ctos[..c.ctosSize])])
    + [UserInfo(INITIATE_REQUEST)]
  }

  // ----- the chains -----

  datatype Insert = AppContext | OidContext | ResultInsert | DiagnosticInsert | TitleInsert | RequirementsInsert
                  | OidMechanism | ResponderAuth | CallingAuth | InitiateResponseInsert | InitiateRequestInsert

  // sec: left out when there is no security.
  datatype Codec = Codec(tag: Octet, sec: bool, insert: Insert)

  const AARE_CHAIN := [
    Codec(0xa1, false, AppContext), Codec(6, false, OidContext), Codec(0xa2, false, ResultInsert),
    Codec(0xa3, false, DiagnosticInsert), Codec(0xa4, true, TitleInsert), Codec(0x88, true, RequirementsInsert),
    Codec(0x89, true, OidMechanism), Codec(0xaa, true, ResponderAuth), Codec(0xbe, false, InitiateResponseInsert)
  ]

  const AARQ_CHAIN := [
    Codec(0xa1, false, AppContext), Codec(6, false, OidContext), Codec(0x8a, true, RequirementsInsert),
    Codec(0x8b, true, OidMechanism), Codec(0xac, true, CallingAuth), Codec(0xbe, false, InitiateRequestInsert)
  ]

  // What an encoder adds after its tag.
  function Field(i: Insert, s: Asso, o: Outside): seq<Octet>
    requires Sane(s) && Fair(o)
  {
    match i
    case AppContext => [9]
    case OidContext => [7] + OID + [1, s.ref]
    case ResultInsert => [3, 2, 1, Result(s)]
    case DiagnosticInsert => [5, 0xa1, 3, 2, 1, s.result]
    case TitleInsert => [10, 4, 8] + o.title
    case RequirementsInsert => [2, 7, 0x80]
    case OidMechanism => [7] + OID + [2, s.auth]
    case ResponderAuth => [s.ctosSize + 2, 0x80, s.ctosSize] + o.drawn[..s.ctosSize]
    case CallingAuth =>
      var c := Calling(s, o);
      [c.ctosSize + 2, 0x80, c.ctosSize] + c.ctos[..c.ctosSize]
    case InitiateResponseInsert => [16, 4, 14] + InitiateResponse(o.conformance, s.ref)
    case InitiateRequestInsert => [16, 4, 14] + INITIATE_REQUEST
  }

  // Whether an encoder is content with the room: the one that ends on a 16-bit word wants one
  // octet to spare.
  function Wants(i: Insert, s: Asso, o: Outside): nat
    requires Sane(s) && Fair(o)
  {
    |Field(i, s, o)| + if i == InitiateRequestInsert then 1 else 0
  }

  predicate Skipped(c: Codec, s: Asso)
  {
    s.auth == 0 && c.sec
  }

  // Whether the chain ends without an error in the given room: a field whose tag finds no room
  // is passed over in silence.
  predicate Ends(chain: seq<Codec>, s: Asso, o: Outside, room: nat)
    requires Sane(s) && Fair(o)
    decreases |chain|
  {
    if chain == [] then true
    else if Skipped(chain[0], s) || room == 0 then Ends(chain[1..], s, o, room)
    else
      && Wants(chain[0].insert, s, o) <= room - 1
      && Ends(chain[1..], s, o, room - 1 - |Field(chain[0].insert, s, o)|)
  }

  // The octets it has then added.
  function Emitted(chain: seq<Codec>, s: Asso, o: Outside, room: nat): (r: seq<Octet>)
    requires Sane(s) && Fair(o) && Ends(chain, s, o, room)
    ensures |r| <= room
    decreases |chain|
  {
    if chain == [] then []
    else if Skipped(chain[0], s) || room == 0 then Emitted(chain[1..], s, o, room)
    else
      var f := Field(chain[0].insert, s, o);
      [chain[0].tag] + f + Emitted(chain[1..], s, o, room - 1 - |f|)
  }

  // ----- the encoders -----

  // A run of octets, each written only if the ones before it were.
  method WriteEach(a: CsmArray, s: seq<Octet>) returns (ret: bool)
    requires a.Valid()
    modifies a`wr, a.buff
    ensures a.Valid() && ret == (|s| <= old(a.Free()))
    ensures ret ==> a.Written() == old(a.Written()) + s && a.wr == old(a.wr) + |s|
  {
    hide CsmArray.Written;
    ret := true;
    var i := 0;
    while i < |s| && ret
      invariant 0 <= i <= |s| && a.Valid() && a.offset == old(a.offset) && a.buff == old(a.buff)
      invariant ret ==> a.Written() == old(a.Written()) + s[..i]
      invariant ret ==> a.wr == old(a.wr) + i
      invariant !ret ==> |s| > old(a.Free())
      decreases |s| - i, ret
    {
      ret := a.WriteU8(s[i]);
      if ret {
        assert s[..i + 1] == s[..i] + [s[i]];
        i := i + 1;
      }
    }
    assert s[..|s|] == s;
  }

  method EncodeOid(a: CsmArray, name: Octet, id: Octet) returns (ret: bool)
    requires a.Valid()
    modifies a`wr, a.buff
    ensures a.Valid() && ret == (8 <= old(a.Free()))
    ensures ret ==> a.Written() == old(a.Written()) + ([7] + OID + [name, id]) && a.wr == old(a.wr) + 8
  {
    hide CsmArray.Written;
    ret := WriteLen(a, 7);
    if ret {
      ret := a.WriteBuff(OID);
      if ret {
        ret := WriteEach(a, [name, id]);
      }
    }
  }

  method EncodeResult(a: CsmArray, s: Asso) returns (ret: bool)
    requires a.Valid()
    modifies a`wr, a.buff
    ensures a.Valid() && ret == (4 <= old(a.Free()))
    ensures ret ==> a.Written() == old(a.Written()) + [3, 2, 1, Result(s)] && a.wr == old(a.wr) + 4
  {
    hide CsmArray.Written;
    var result := 0;
    if s.cf == Idle {
      result := 1;
    }
    ret := WriteLen(a, 3);
    if ret {
      ret := WriteEach(a, [2, 1, result]);
    }
  }

  method EncodeDiagnostic(a: CsmArray, s: Asso) returns (ret: bool)
    requires a.Valid()
    modifies a`wr, a.buff
    ensures a.Valid() && ret == (6 <= old(a.Free()))
    ensures ret ==> a.Written() == old(a.Written()) + [5, 0xa1, 3, 2, 1, s.result] && a.wr == old(a.wr) + 6
  {
    hide CsmArray.Written;
    ret := WriteLen(a, 5);
    if ret {
      ret := a.WriteU8(0xa1);
      if ret {
        ret := WriteLen(a, 3);
        if ret {
          ret := WriteEach(a, [2, 1, s.result]);
        }
      }
    }
  }

  method EncodeTitle(a: CsmArray, title: seq<Octet>) returns (ret: bool)
    requires a.Valid() && |title| == 8
    modifies a`wr, a.buff
    ensures a.Valid() && ret == (11 <= old(a.Free()))
    ensures ret ==> a.Written() == old(a.Written()) + ([10, 4, 8] + title) && a.wr == old(a.wr) + 11
  {
    hide CsmArray.Written;
    ret := WriteLen(a, 10);
    if ret {
      ret := WriteEach(a, [4, 8]);
      if ret {
        ret := a.WriteBuff(title);
      }
    }
  }

  method EncodeRequirements(a: CsmArray) returns (ret: bool)
    requires a.Valid()
    modifies a`wr, a.buff
    ensures a.Valid() && ret == (3 <= old(a.Free()))
    ensures ret ==> a.Written() == old(a.Written()) + [2, 7, 0x80] && a.wr == old(a.wr) + 3
  {
    hide CsmArray.Written;
    ret := WriteLen(a, 2);
    if ret {
      ret := WriteEach(a, [7, 0x80]);
    }
  }

  method EncodeAuthValue(a: CsmArray, value: seq<Octet>, size: nat) returns (ret: bool)
    requires a.Valid() && |value| == 64 && size <= 64
    modifies a`wr, a.buff
    ensures a.Valid() && ret == (3 + size <= old(a.Free()))
    ensures ret ==> a.Written() == old(a.Written()) + ([size + 2, 0x80, size] + value[..size])
    ensures ret ==> a.wr == old(a.wr) + 3 + size
  {
    hide CsmArray.Written;
    ret := WriteLen(a, size + 2);
    if ret {
      ret := WriteEach(a, [0x80, size]);
      if ret {
        ret := a.WriteBuff(value[..size]);
      }
    }
  }

  // The challenge of the server is drawn before its room is known.
  method EncodeResponderAuth(a: CsmArray, s: Asso, o: Outside) returns (ret: bool, s': Asso)
    requires a.Valid() && Sane(s) && Fair(o)
    modifies a`wr, a.buff
    ensures a.Valid() && s' == Answering(s, o) && ret == (|Field(ResponderAuth, s, o)| <= old(a.Free()))
    ensures ret ==> a.Written() == old(a.Written()) + Field(ResponderAuth, s, o) && a.wr == old(a.wr) + s.ctosSize + 3
  {
    var size := s.ctosSize;
    var value := s.stoc;
    var i := 0;
    while i < size
      invariant 0 <= i <= size && value == Filled(s.stoc, i, o.drawn)
    {
      value := value[i := o.drawn[i]];
      i := i + 1;
    }
    s' := s.(stoc := value, stocSize := size);
    ret := EncodeAuthValue(a, s'.stoc, size);
    assert s'.stoc[..size] == o.drawn[..size];
  }

  method EncodeCallingAuth(a: CsmArray, s: Asso, o: Outside) returns (ret: bool, s': Asso)
    requires a.Valid() && Sane(s) && Fair(o)
    modifies a`wr, a.buff
    ensures a.Valid() && s' == Calling(s, o) && ret == (|Field(CallingAuth, s, o)| <= old(a.Free()))
    ensures ret ==> a.Written() == old(a.Written()) + Field(CallingAuth, s, o)
    ensures ret ==> a.wr == old(a.wr) + |Field(CallingAuth, s, o)|
  {
    s' := s;
    if s.auth == 1 {
      s' := s'.(ctos := Filled(s.ctos, 8, o.password), ctosSize := 8);
    } else {
      var value := s.ctos;
      var i := 0;
      while i < o.size
        invariant 0 <= i <= o.size && value == Filled(s.ctos, i, o.drawn)
      {
        value := value[i := o.drawn[i]];
        i := i + 1;
      }
      s' := s'.(ctos := value, ctosSize := o.size);
    }
    ret := EncodeAuthValue(a, s'.ctos, s'.ctosSize);
  }

  // The contents, the two lengths still zero.
  method EncodeInitiate(a: CsmArray, response: bool, s: Asso, o: Outside) returns (ret: bool)
    requires a.Valid() && Sane(s) && Fair(o)
    modifies a`wr, a.buff
    ensures a.Valid()
    ensures ret == ((if response then 17 else 18) <= old(a.Free()))
    ensures ret ==> a.wr == old(a.wr) + 17
    ensures ret ==> a.Written()
                    == old(a.Written()) + ([0, 4, 0]
                       + if response then InitiateResponse(o.conformance, s.ref) else INITIATE_REQUEST)
  {
    hide CsmArray.Written;
    ghost var was := a.Written();
    if response {
      var octets := [0, 4, 0, 8, 0, 6] + [0x5f, 0x1f, 4, 0] + Block(o.conformance)
                    + [PDU_SIZE / 0x100, PDU_SIZE % 0x100] + if s.ref == 1 || s.ref == 3 then [0, 7] else [0xfa, 0];
      assert octets == [0, 4, 0] + InitiateResponse(o.conformance, s.ref);
      ret := WriteEach(a, octets);
    } else {
      var octets := [0, 4, 0, 1, 0, 0, 0, 6] + [0x5f, 0x1f, 4, 0] + Block(0xffff_ffff);
      assert octets + [0xff, 0xff] == [0, 4, 0] + INITIATE_REQUEST;
      ret := WriteEach(a, octets);
      if ret {
        assert was + octets + [0xff, 0xff] == was + (octets + [0xff, 0xff]);
        ret := a.WriteU16(0xffff);
      }
    }
  }

  // Both lengths are zero at first and set once the contents are written.
  method EncodeUserInfo(a: CsmArray, response: bool, s: Asso, o: Outside) returns (ret: bool)
    requires a.Valid() && Sane(s) && Fair(o)
    modifies a`wr, a.buff
    ensures a.Valid()
    ensures ret == ((if response then 17 else 18) <= old(a.Free()))
    ensures ret ==> a.wr == old(a.wr) + 17
    ensures ret ==> a.Written()
                    == old(a.Written()) + ([16, 4, 14]
                       + if response then InitiateResponse(o.conformance, s.ref) else INITIATE_REQUEST)
  {
    hide CsmArray.Written, InitiateResponse;
    ghost var was := a.Written();
    ghost var initiate := if response then InitiateResponse(o.conformance, s.ref) else INITIATE_REQUEST;
    var saved := a.wr;
    WrittenLength(a);
    ret := EncodeInitiate(a, response, s, o);
    if ret {
      var size := a.wr - saved;
      ret := a.Set(saved, (size - 1) % 0x100);
      if ret {
        ret := a.Set(saved + 2, (size - 3) % 0x100);
      }
      Patched(was, initiate);
    }
  }

  lemma WrittenLength(a: CsmArray)
    requires a.Valid()
    ensures |a.Written()| == a.wr
  {}

  lemma Patched(was: seq<Octet>, initiate: seq<Octet>)
    ensures (was + ([0, 4, 0] + initiate))[|was| := 16][|was| + 2 := 14] == was + ([16, 4, 14] + initiate)
  {}

  method RunInsert(a: CsmArray, i: Insert, s: Asso, o: Outside) returns (ret: bool, s': Asso)
    requires a.Valid() && Sane(s) && Fair(o)
    modifies a`wr, a.buff
    ensures a.Valid() && ret == (Wants(i, s, o) <= old(a.Free()))
    ensures ret ==> a.Written() == old(a.Written()) + Field(i, s, o) && a.wr == old(a.wr) + |Field(i, s, o)|
    ensures s' == if i == ResponderAuth then Answering(s, o) else if i == CallingAuth then Calling(s, o) else s
  {
    hide Answering, Calling, InitiateResponse, CsmArray.Written;
    s' := s;
    match i
    case AppContext =>
      ret := WriteLen(a, 9);
    case OidContext =>
      ret := EncodeOid(a, 1, s.ref);
    case ResultInsert =>
      ret := EncodeResult(a, s);
    case DiagnosticInsert =>
      ret := EncodeDiagnostic(a, s);
    case TitleInsert =>
      ret := EncodeTitle(a, o.title);
    case RequirementsInsert =>
      ret := EncodeRequirements(a);
    case OidMechanism =>
      ret := EncodeOid(a, 2, s.auth);
    case ResponderAuth =>
      ret, s' := EncodeResponderAuth(a, s, o);
    case CallingAuth =>
      ret, s' := EncodeCallingAuth(a, s, o);
    case InitiateResponseInsert =>
      ret := EncodeUserInfo(a, true, s, o);
    case InitiateRequestInsert =>
      ret := EncodeUserInfo(a, false, s, o);
  }

  // The challenge that is drawn on the way does not change the other fields.
  lemma SameFields(i: Insert, s: Asso, o: Outside)
    requires Sane(s) && Fair(o)
    ensures i != CallingAuth ==> Field(i, Answering(s, o), o) == Field(i, s, o)
    ensures i != ResponderAuth ==> Field(i, Calling(s, o), o) == Field(i, s, o)
  {
    if i == CallingAuth {
      assert Calling(Calling(s, o), o).ctos[..Calling(s, o).ctosSize] == Calling(s, o).ctos[..Calling(s, o).ctosSize];
    }
  }

  // Answering chains draw the server's challenge, calling ones the client's.
  predicate AllAnswer(chain: seq<Codec>)
  {
    forall k :: 0 <= k < |chain| ==> chain[k].insert != CallingAuth
  }

  predicate AllCall(chain: seq<Codec>)
  {
    forall k :: 0 <= k < |chain| ==> chain[k].insert != ResponderAuth
  }

  // The state on the way: with or without the challenge.
  predicate OnTheWay(chain: seq<Codec>, s: Asso, o: Outside, s': Asso)
    requires Sane(s) && Fair(o)
  {
    s' == s || (AllAnswer(chain) && s' == Answering(s, o)) || (AllCall(chain) && s' == Calling(s, o))
  }

  lemma StillTheSame(chain: seq<Codec>, k: nat, s: Asso, o: Outside, s': Asso)
    requires Sane(s) && Fair(o) && k < |chain| && (AllAnswer(chain) || AllCall(chain)) && OnTheWay(chain, s, o, s')
    ensures Sane(s') && s'.auth == s.auth
    ensures Field(chain[k].insert, s', o) == Field(chain[k].insert, s, o)
    ensures Wants(chain[k].insert, s', o) == Wants(chain[k].insert, s, o)
    ensures chain[k].insert == ResponderAuth ==>
              AllAnswer(chain) && Answering(s', o) == Answering(s, o) == Challenged(chain, s, o)
    ensures chain[k].insert == CallingAuth ==>
              AllCall(chain) && Calling(s', o) == Calling(s, o) == Challenged(chain, s, o)
  {
    hide Field;
    SameFields(chain[k].insert, s, o);
  }

  // The state with the new challenge.
  function Challenged(chain: seq<Codec>, s: Asso, o: Outside): (r: Asso)
    requires Sane(s) && Fair(o)
    ensures Sane(r)
  {
    if AllAnswer(chain) then Answering(s, o) else Calling(s, o)
  }

  // Whether the chain comes as far as drawing it.
  predicate Draws(chain: seq<Codec>, s: Asso, o: Outside, room: nat)
    requires Sane(s) && Fair(o)
    decreases |chain|
  {
    if chain == [] then false
    else if Skipped(chain[0], s) || room == 0 then Draws(chain[1..], s, o, room)
    else
      || chain[0].insert == ResponderAuth || chain[0].insert == CallingAuth
      || (Wants(chain[0].insert, s, o) <= room - 1
         && Draws(chain[1..], s, o, room - 1 - |Field(chain[0].insert, s, o)|))
  }

  // One field; nothing happens, and no error, when its tag finds no room.
  method RunCodec(a: CsmArray, c: Codec, s: Asso, o: Outside) returns (error: bool, s': Asso)
    requires a.Valid() && Sane(s) && Fair(o)
    modifies a`wr, a.buff
    ensures a.Valid()
    ensures var f := Field(c.insert, s, o);
            if Skipped(c, s) || old(a.Free()) == 0 then
              !error && s' == s && a.Written() == old(a.Written()) && a.wr == old(a.wr)
            else
              && error == (Wants(c.insert, s, o) > old(a.Free()) - 1)
              && s' == (if c.insert == ResponderAuth then Answering(s, o)
                        else if c.insert == CallingAuth then Calling(s, o) else s)
              && (!error ==> a.Written() == old(a.Written()) + ([c.tag] + f) && a.wr == old(a.wr) + 1 + |f|)
  {
    hide CsmArray.Written, Field, Wants, Answering, Calling;
    error, s' := false, s;
    if !(s.auth == 0 && c.sec) {
      ghost var was := a.Written();
      var room := a.WriteU8(c.tag);
      if room {
        var ok;
        ok, s' := RunInsert(a, c.insert, s, o);
        error := !ok;
        Associative(was, [c.tag], Field(c.insert, s, o));
      }
    }
  }

  method RunChain(a: CsmArray, chain: seq<Codec>, s: Asso, o: Outside) returns (ret: bool, s': Asso)
    requires a.Valid() && Sane(s) && Fair(o) && (AllAnswer(chain) || AllCall(chain))
    modifies a`wr, a.buff
    ensures a.Valid() && ret == Ends(chain, s, o, old(a.Free()))
    ensures s' == if Draws(chain, s, o, old(a.Free())) then Challenged(chain, s, o) else s
    ensures ret ==> a.Written() == old(a.Written()) + Emitted(chain, s, o, old(a.Free()))
  {
    hide CsmArray.Written, Field, Wants, Ends, Emitted, Draws, Answering, Calling, AllAnswer, AllCall, Challenged;
    s' := s;
    ghost var was, room := a.Written(), a.Free();
    ghost var done: seq<Octet> := [];
    assert chain[0..] == chain;
    var i := 0;
    var error := false;
    ghost var drawn := false;
    while i < |chain| && !error
      invariant 0 <= i <= |chain| && a.Valid() && a.offset == old(a.offset) && a.size == old(a.size)
                && a.buff == old(a.buff)
      invariant OnTheWay(chain, s, o, s') && s' == if drawn then Challenged(chain, s, o) else s
      invariant Draws(chain, s, o, room) == (drawn || (!error && Draws(chain[i..], s, o, a.Free())))
      invariant error ==> !Ends(chain, s, o, room)
      invariant !error ==> Ends(chain, s, o, room) == Ends(chain[i..], s, o, a.Free())
      invariant !error ==> a.Written() == was + done
      invariant !error && Ends(chain[i..], s, o, a.Free()) ==>
                  Emitted(chain, s, o, room) == done + Emitted(chain[i..], s, o, a.Free())
      decreases |chain| - i, !error
    {
      var c := chain[i];
      StillTheSame(chain, i, s, o, s');
      ChainStep(chain[i..], s, o, a.Free());
      DrawStep(chain[i..], s, o, a.Free());
      assert chain[i..][0] == c && chain[i..][1..] == chain[i + 1..];
      ghost var before, left := done, a.Free();
      error, s' := RunCodec(a, c, s', o);
      if !(Skipped(c, s) || left == 0) {
        drawn := drawn || c.insert == ResponderAuth || c.insert == CallingAuth;
        done := before + ([c.tag] + Field(c.insert, s, o));
        Associative(was, before, [c.tag] + Field(c.insert, s, o));
        if !error && Ends(chain[i + 1..], s, o, a.Free()) {
          Associative(before, [c.tag] + Field(c.insert, s, o), Emitted(chain[i + 1..], s, o, a.Free()));
        }
      }
      if !error {
        i := i + 1;
      }
    }
    ret := !error;
    if ret {
      assert chain[i..] == [];
      ChainEnd(s, o, a.Free());
      assert done + [] == done;
    }
    NoDraw(s, o, a.Free());
  }

  lemma NoDraw(s: Asso, o: Outside, room: nat)
    requires Sane(s) && Fair(o)
    ensures !Draws([], s, o, room)
  {}

  lemma DrawStep(chain: seq<Codec>, s: Asso, o: Outside, room: nat)
    requires Sane(s) && Fair(o) && chain != []
    ensures var c := chain[0];
            Draws(chain, s, o, room) ==
              if Skipped(c, s) || room == 0 then Draws(chain[1..], s, o, room)
              else
                || c.insert == ResponderAuth || c.insert == CallingAuth
                || (Wants(c.insert, s, o) <= room - 1 && Draws(chain[1..], s, o, room - 1 - |Field(c.insert, s, o)|))
  {}

  lemma ChainEnd(s: Asso, o: Outside, room: nat)
    requires Sane(s) && Fair(o)
    ensures Ends([], s, o, room) && Emitted([], s, o, room) == []
  {}

  // The first codec of a chain.
  lemma ChainStep(chain: seq<Codec>, s: Asso, o: Outside, room: nat)
    requires Sane(s) && Fair(o) && chain != []
    ensures var c, f := chain[0], Field(chain[0].insert, s, o);
            if Skipped(c, s) || room == 0 then
              && Ends(chain, s, o, room) == Ends(chain[1..], s, o, room)
              && (Ends(chain, s, o, room) ==> Emitted(chain, s, o, room) == Emitted(chain[1..], s, o, room))
            else
              && Ends(chain, s, o, room)
                 == (Wants(c.insert, s, o) <= room - 1 && Ends(chain[1..], s, o, room - 1 - |f|))
              && (Ends(chain, s, o, room) ==>
                    Emitted(chain, s, o, room) == [c.tag] + f + Emitted(chain[1..], s, o, room - 1 - |f|))
  {}

  function ChainOf(tag: Octet): seq<Codec>
  {
    if tag == AARQ then AARQ_CHAIN else AARE_CHAIN
  }

  lemma ChainKinds(tag: Octet)
    ensures if tag == AARQ then AllCall(ChainOf(tag)) else AllAnswer(ChainOf(tag))
  {}

  // A message with its length octet.
  function Message(tag: Octet, contents: seq<Octet>): seq<Octet>
  {
    [tag, |contents| % 0x100] + contents
  }

  lemma Lengthened(tag: Octet, contents: seq<Octet>)
    ensures ([tag, 0] + contents)[1 := |contents| % 0x100] == Message(tag, contents)
  {}

  // csm_asso_encoder.
  method Encode(a: CsmArray, tag: Octet, s: Asso, o: Outside) returns (ret: bool, s': Asso)
    requires a.Valid() && Sane(s) && Fair(o)
    modifies a`wr, a.buff
    ensures a.Valid()
    ensures var room := a.size - a.offset - 2;
            && ret == (room >= 0 && Ends(ChainOf(tag), s, o, room))
            && (ret ==> a.Written() == Message(tag, Emitted(ChainOf(tag), s, o, room)))
            && s' == if room >= 0 && Draws(ChainOf(tag), s, o, room) then Challenged(ChainOf(tag), s, o) else s
  {
    hide Ends, Emitted, Draws, Challenged, AllAnswer, AllCall, ChainOf, Message, CsmArray.Written;
    a.wr := 0;
    ret, s' := false, s;
    WrittenLength(a);
    var ok := a.WriteU8(tag);
    if ok {
      ok := a.WriteU8(0);
      if ok {
        ChainKinds(tag);
        ghost var room := a.Free();
        assert a.Written() == [tag, 0];
        ret, s' := RunChain(a, ChainOf(tag), s, o);
        if ret {
          WrittenLength(a);
          Lengthened(tag, Emitted(ChainOf(tag), s, o, room));
          var _ := a.Set(1, (a.wr - 2) % 0x100);
        }
      }
    }
  }

  // ----- the messages -----

  // Every field of a chain, as if there were room for all of them.
  function Full(chain: seq<Codec>, s: Asso, o: Outside): seq<Octet>
    requires Sane(s) && Fair(o)
    decreases |chain|
  {
    if chain == [] then []
    else (if Skipped(chain[0], s) then [] else [chain[0].tag] + Field(chain[0].insert, s, o)) + Full(chain[1..], s, o)
  }

  // One octet to spare when the chain ends on a 16-bit word.
  function Spare(chain: seq<Codec>): nat
  {
    if chain != [] && chain[|chain| - 1].insert == InitiateRequestInsert then 1 else 0
  }

  // Only the last field, which is never left out, may end on a 16-bit word.
  predicate WordLast(chain: seq<Codec>)
  {
    && (forall k :: 0 <= k < |chain| - 1 ==> chain[k].insert != InitiateRequestInsert)
    && (chain != [] ==> !chain[|chain| - 1].sec)
  }

  lemma {:induction false} EnoughRoom(chain: seq<Codec>, s: Asso, o: Outside, room: nat)
    requires Sane(s) && Fair(o) && WordLast(chain) && room >= |Full(chain, s, o)| + Spare(chain)
    ensures Ends(chain, s, o, room) && Emitted(chain, s, o, room) == Full(chain, s, o)
    decreases |chain|
  {
    hide Field;
    if chain != [] {
      var c := chain[0];
      var used := if Skipped(c, s) then 0 else 1 + |Field(c.insert, s, o)|;
      EnoughRoom(chain[1..], s, o, room - used);
    }
  }

  // The room is used up at the end of one of the fields before the last.
  predicate AtField(chain: seq<Codec>, s: Asso, o: Outside, room: nat)
    requires Sane(s) && Fair(o)
  {
    exists k :: 0 <= k < |chain| && room == |Full(chain[..k], s, o)|
  }

  lemma {:induction false} NoRoom(chain: seq<Codec>, s: Asso, o: Outside)
    requires Sane(s) && Fair(o)
    ensures Ends(chain, s, o, 0)
    decreases |chain|
  {
    if chain != [] {
      NoRoom(chain[1..], s, o);
    }
  }

  // Main result: the encoder reports success exactly when everything fits or the room is used
  // up exactly at the end of some earlier field; then the message is cut there in silence.
  lemma {:induction false} EndsIff(chain: seq<Codec>, s: Asso, o: Outside, room: nat)
    requires Sane(s) && Fair(o) && WordLast(chain)
    ensures Ends(chain, s, o, room) <==>
              room >= |Full(chain, s, o)| + Spare(chain) || AtField(chain, s, o, room)
    decreases |chain|
  {
    hide Field, Ends, Full, AtField;
    if chain == [] {
      ChainEnd(s, o, room);
      FullNone(s, o);
    } else {
      var c := chain[0];
      ChainStep(chain, s, o, room);
      var used := if Skipped(c, s) then 0 else 1 + |Field(c.insert, s, o)|;
      FullStep(chain, s, o);
      AtFieldStep(chain, s, o, room);
      if room == 0 {
        NoRoom(chain, s, o);
      } else if room >= used {
        EndsIff(chain[1..], s, o, room - used);
        SpareStep(chain, s, o);
      }
    }
  }

  lemma SpareStep(chain: seq<Codec>, s: Asso, o: Outside)
    requires Sane(s) && Fair(o) && WordLast(chain) && chain != []
    ensures WordLast(chain[1..])
    ensures Wants(chain[0].insert, s, o) == |Field(chain[0].insert, s, o)| + if |chain| == 1 then Spare(chain) else 0
    ensures |chain| > 1 ==> Spare(chain[1..]) == Spare(chain)
    ensures |chain| == 1 ==>
              && chain[1..] == [] && Spare(chain[1..]) == 0 && Full(chain[1..], s, o) == [] && !Skipped(chain[0], s)
              && forall room: nat :: Ends(chain[1..], s, o, room) && !AtField(chain[1..], s, o, room)
  {
    hide Field;
    if |chain| > 1 {
      assert chain[1..][|chain| - 2] == chain[|chain| - 1];
    }
  }

  lemma FullNone(s: Asso, o: Outside)
    requires Sane(s) && Fair(o)
    ensures Full([], s, o) == []
  {}

  lemma FullStep(chain: seq<Codec>, s: Asso, o: Outside)
    requires Sane(s) && Fair(o) && chain != []
    ensures |Full(chain, s, o)|
            == |Full(chain[1..], s, o)| + if Skipped(chain[0], s) then 0 else 1 + |Field(chain[0].insert, s, o)|
  {
    hide Field;
  }

  lemma AtFieldStep(chain: seq<Codec>, s: Asso, o: Outside, room: nat)
    requires Sane(s) && Fair(o) && chain != []
    ensures var used := if Skipped(chain[0], s) then 0 else 1 + |Field(chain[0].insert, s, o)|;
            AtField(chain, s, o, room) <==> room == 0 || (room >= used && AtField(chain[1..], s, o, room - used))
  {
    hide Field, Full;
    var used := if Skipped(chain[0], s) then 0 else 1 + |Field(chain[0].insert, s, o)|;
    var tail := chain[1..];
    Shifted(chain, s, o);
    assert |Full(chain[..0], s, o)| == 0;
    if AtField(chain, s, o, room) && room != 0 {
      var k :| 0 <= k < |chain| && room == |Full(chain[..k], s, o)|;
      assert |Full(tail[..k - 1], s, o)| == room - used;
    }
    if room >= used && AtField(tail, s, o, room - used) {
      var k :| 0 <= k < |tail| && room - used == |Full(tail[..k], s, o)|;
      assert |Full(chain[..k + 1], s, o)| == used + |Full(tail[..k + 1 - 1], s, o)|;
    }
  }

  // The ends of the fields, counted with and without the first.
  lemma Shifted(chain: seq<Codec>, s: Asso, o: Outside)
    requires Sane(s) && Fair(o) && chain != []
    ensures var c := chain[0];
            var used := if Skipped(c, s) then 0 else 1 + |Field(c.insert, s, o)|;
            && |Full(chain, s, o)| == used + |Full(chain[1..], s, o)|
            && |Full(chain[..0], s, o)| == 0
            && forall k :: 0 < k <= |chain| ==> |Full(chain[..k], s, o)| == used + |Full(chain[1..][..k - 1], s, o)|
  {
    hide Field;
    forall k | 0 < k <= |chain|
      ensures |Full(chain[..k], s, o)|
              == (if Skipped(chain[0], s) then 0 else 1 + |Field(chain[0].insert, s, o)|)
                 + |Full(chain[1..][..k - 1], s, o)|
    {
      assert chain[..k][1..] == chain[1..][..k - 1];
    }
  }

  // ----- the messages are the trees -----

  // A field with its tag, unless it is left out.
  function With(tag: Octet, sec: bool, i: Insert, s: Asso, o: Outside): seq<Octet>
    requires Sane(s) && Fair(o)
  {
    if sec && s.auth == 0 then [] else [tag] + Field(i, s, o)
  }

  lemma FullCons(c: Codec, rest: seq<Codec>, s: Asso, o: Outside)
    requires Sane(s) && Fair(o)
    ensures Full([c] + rest, s, o)
            == With(c.tag, c.sec, c.insert, s, o) + Full(rest, s, o)
  {
    hide Field;
    assert ([c] + rest)[1..] == rest;
  }

  lemma BytesCons(t: Tree, rest: seq<Tree>)
    ensures BytesAll([t] + rest) == Bytes(t) + BytesAll(rest)
  {
    assert ([t] + rest)[1..] == rest;
  }

  lemma BytesOne(t: Tree)
    ensures BytesAll([t]) == Bytes(t)
  {
    assert [t][1..] == [];
  }

  // The octets of each tree are those of its fields.
  lemma TreeBytes(s: Asso, o: Outside)
    requires Sane(s) && Fair(o)
    ensures Bytes(ContextName(s.ref)) == ([0xa1] + Field(AppContext, s, o)) + ([6] + Field(OidContext, s, o))
    ensures Bytes(ResultField(Result(s))) == [0xa2] + Field(ResultInsert, s, o)
    ensures Bytes(Diagnostic(s.result)) == [0xa3] + Field(DiagnosticInsert, s, o)
    ensures Bytes(Title(o.title)) == [0xa4] + Field(TitleInsert, s, o)
  {
    BytesOne(Oid(1, s.ref));
    BytesOne(Prim(2, [Result(s)]));
    BytesOne(Prim(2, [s.result]));
    BytesOne(Cons(0xa1, [Prim(2, [s.result])]));
    BytesOne(Prim(4, o.title));
  }

  lemma SecurityBytes(s: Asso, o: Outside, tag: Octet)
    requires Sane(s) && Fair(o)
    ensures Bytes(Requirements(tag)) == [tag] + Field(RequirementsInsert, s, o)
    ensures Bytes(Mechanism(tag, s.auth)) == [tag] + Field(OidMechanism, s, o)
  {}

  lemma ChallengeBytes(s: Asso, o: Outside, tag: Octet)
    requires Sane(s) && Fair(o)
    ensures Bytes(AuthValue(tag, o.drawn[..s.ctosSize])) == [tag] + Field(ResponderAuth, s, o)
    ensures var c := Calling(s, o); Bytes(AuthValue(tag, c.ctos[..c.ctosSize])) == [tag] + Field(CallingAuth, s, o)
  {
    var c := Calling(s, o);
    BytesOne(Prim(0x80, o.drawn[..s.ctosSize]));
    BytesOne(Prim(0x80, c.ctos[..c.ctosSize]));
  }

  lemma UserBytes(s: Asso, o: Outside)
    requires Sane(s) && Fair(o)
    ensures Bytes(UserInfo(InitiateResponse(o.conformance, s.ref))) == [0xbe] + Field(InitiateResponseInsert, s, o)
    ensures Bytes(UserInfo(INITIATE_REQUEST)) == [0xbe] + Field(InitiateRequestInsert, s, o)
  {
    hide InitiateResponse;
    BytesOne(Prim(4, InitiateResponse(o.conformance, s.ref)));
    BytesOne(Prim(4, INITIATE_REQUEST));
  }

  lemma FieldSizes(s: Asso, o: Outside)
    requires Sane(s) && Fair(o)
    ensures |Field(AppContext, s, o)| == 1 && |Field(OidContext, s, o)| == 8 && |Field(ResultInsert, s, o)| == 4
    ensures |Field(DiagnosticInsert, s, o)| == 6 && |Field(TitleInsert, s, o)| == 11
    ensures |Field(RequirementsInsert, s, o)| == 3 && |Field(OidMechanism, s, o)| == 8
    ensures |Field(ResponderAuth, s, o)| == 3 + s.ctosSize && |Field(CallingAuth, s, o)| == 3 + Calling(s, o).ctosSize
    ensures |Field(InitiateResponseInsert, s, o)| == 17 && |Field(InitiateRequestInsert, s, o)| == 17
  {}

  lemma AareFields(s: Asso, o: Outside)
    requires Sane(s) && Fair(o)
    ensures Full(AARE_CHAIN, s, o)
            == With(0xa1, false, AppContext, s, o)
               + (With(6, false, OidContext, s, o)
                 + (With(0xa2, false, ResultInsert, s, o)
                   + (With(0xa3, false, DiagnosticInsert, s, o)
                     + (With(0xa4, true, TitleInsert, s, o)
                       + (With(0x88, true, RequirementsInsert, s, o)
                         + (With(0x89, true, OidMechanism, s, o)
                           + (With(0xaa, true, ResponderAuth, s, o)
                             + (With(0xbe, false, InitiateResponseInsert, s, o)))))))))
  {
    hide Full, Field;
    var r9 := [];
    var r8 := [Codec(0xbe, false, InitiateResponseInsert)] + r9;
    FullCons(Codec(0xbe, false, InitiateResponseInsert), r9, s, o);
    var r7 := [Codec(0xaa, true, ResponderAuth)] + r8;
    FullCons(Codec(0xaa, true, ResponderAuth), r8, s, o);
    var r6 := [Codec(0x89, true, OidMechanism)] + r7;
    FullCons(Codec(0x89, true, OidMechanism), r7, s, o);
    var r5 := [Codec(0x88, true, RequirementsInsert)] + r6;
    FullCons(Codec(0x88, true, RequirementsInsert), r6, s, o);
    var r4 := [Codec(0xa4, true, TitleInsert)] + r5;
    FullCons(Codec(0xa4, true, TitleInsert), r5, s, o);
    var r3 := [Codec(0xa3, false, DiagnosticInsert)] + r4;
    FullCons(Codec(0xa3, false, DiagnosticInsert), r4, s, o);
    var r2 := [Codec(0xa2, false, ResultInsert)] + r3;
    FullCons(Codec(0xa2, false, ResultInsert), r3, s, o);
    var r1 := [Codec(6, false, OidContext)] + r2;
    FullCons(Codec(6, false, OidContext), r2, s, o);
    var r0 := [Codec(0xa1, false, AppContext)] + r1;
    FullCons(Codec(0xa1, false, AppContext), r1, s, o);
    assert r0 == AARE_CHAIN;
    FullNone(s, o);
  }

  // The fields of the response, in order, are its trees.
  lemma AareIsTrees(s: Asso, o: Outside)
    requires Sane(s) && Fair(o)
    ensures Full(AARE_CHAIN, s, o) == BytesAll(AareTrees(s, o))
    ensures |Full(AARE_CHAIN, s, o)| == if s.auth == 0 then 41 else 70 + s.ctosSize
  {
    hide Full, Field, BytesAll, Bytes, ContextName, ResultField, Diagnostic, Title, Requirements, Mechanism, AuthValue;
    hide UserInfo, InitiateResponse, AareTrees;
    AareFields(s, o);
    FieldSizes(s, o);
    TreeBytes(s, o);
    SecurityBytes(s, o, 0x88);
    SecurityBytes(s, o, 0x89);
    ChallengeBytes(s, o, 0xaa);
    UserBytes(s, o);
    var user := UserInfo(InitiateResponse(o.conformance, s.ref));
    var auth, mech, requ, title := AuthValue(0xaa, o.drawn[..s.ctosSize]), Mechanism(0x89, s.auth), Requirements(0x88),
      Title(o.title);
    BytesOne(user);
    BytesCons(auth, [user]);
    BytesCons(mech, [auth] + [user]);
    BytesCons(requ, [mech] + ([auth] + [user]));
    BytesCons(title, [requ] + ([mech] + ([auth] + [user])));
    var tail := if s.auth == 0 then [user] else [title] + ([requ] + ([mech] + ([auth] + [user])));
    BytesCons(Diagnostic(s.result), tail);
    BytesCons(ResultField(Result(s)), [Diagnostic(s.result)] + tail);
    BytesCons(ContextName(s.ref), [ResultField(Result(s))] + ([Diagnostic(s.result)] + tail));
    AareNested(s, o, tail);
  }

  lemma AareNested(s: Asso, o: Outside, tail: seq<Tree>)
    requires Sane(s) && Fair(o)
    requires var user := [UserInfo(InitiateResponse(o.conformance, s.ref))];
             tail == if s.auth == 0 then user
                     else [Title(o.title)] + ([Requirements(0x88)] + ([Mechanism(0x89, s.auth)]
                          + ([AuthValue(0xaa, o.drawn[..s.ctosSize])] + user)))
    ensures AareTrees(s, o) == [ContextName(s.ref)] + ([ResultField(Result(s))] + ([Diagnostic(s.result)] + tail))
  {
    hide ContextName, ResultField, Diagnostic, Title, Requirements, Mechanism, AuthValue, UserInfo, InitiateResponse;
    var user := [UserInfo(InitiateResponse(o.conformance, s.ref))];
    var head := [ContextName(s.ref), ResultField(Result(s)), Diagnostic(s.result)];
    ListOf3(head[0], head[1], head[2], tail);
    if s.auth == 0 {
      assert head + [] + user == head + user;
    } else {
      var title, requ, mech := Title(o.title), Requirements(0x88), Mechanism(0x89, s.auth);
      var secured := [title, requ, mech, AuthValue(0xaa, o.drawn[..s.ctosSize])];
      ListOf4(title, requ, mech, secured[3], user);
      Associative(head, secured, user);
    }
  }

  lemma ListOf3(a: Tree, b: Tree, c: Tree, tail: seq<Tree>)
    ensures [a] + ([b] + ([c] + tail)) == [a, b, c] + tail
  {}

  lemma ListOf4(a: Tree, b: Tree, c: Tree, d: Tree, tail: seq<Tree>)
    ensures [a] + ([b] + ([c] + ([d] + tail))) == [a, b, c, d] + tail
  {}

  lemma AarqFields(s: Asso, o: Outside)
    requires Sane(s) && Fair(o)
    ensures Full(AARQ_CHAIN, s, o)
            == With(0xa1, false, AppContext, s, o)
               + (With(6, false, OidContext, s, o)
                 + (With(0x8a, true, RequirementsInsert, s, o)
                   + (With(0x8b, true, OidMechanism, s, o)
                     + (With(0xac, true, CallingAuth, s, o) + (With(0xbe, false, InitiateRequestInsert, s, o))))))
  {
    hide Full, Field;
    var r6 := [];
    var r5 := [Codec(0xbe, false, InitiateRequestInsert)] + r6;
    FullCons(Codec(0xbe, false, InitiateRequestInsert), r6, s, o);
    var r4 := [Codec(0xac, true, CallingAuth)] + r5;
    FullCons(Codec(0xac, true, CallingAuth), r5, s, o);
    var r3 := [Codec(0x8b, true, OidMechanism)] + r4;
    FullCons(Codec(0x8b, true, OidMechanism), r4, s, o);
    var r2 := [Codec(0x8a, true, RequirementsInsert)] + r3;
    FullCons(Codec(0x8a, true, RequirementsInsert), r3, s, o);
    var r1 := [Codec(6, false, OidContext)] + r2;
    FullCons(Codec(6, false, OidContext), r2, s, o);
    var r0 := [Codec(0xa1, false, AppContext)] + r1;
    FullCons(Codec(0xa1, false, AppContext), r1, s, o);
    assert r0 == AARQ_CHAIN;
    FullNone(s, o);
  }

  // And those of the request.
  lemma AarqIsTrees(s: Asso, o: Outside)
    requires Sane(s) && Fair(o)
    ensures Full(AARQ_CHAIN, s, o) == BytesAll(AarqTrees(s, o))
    ensures |Full(AARQ_CHAIN, s, o)| == if s.auth == 0 then 29 else 46 + Calling(s, o).ctosSize
  {
    hide Full, Field, BytesAll, Bytes, ContextName, Requirements, Mechanism, AuthValue, UserInfo, Calling;
    AarqFields(s, o);
    FieldSizes(s, o);
    TreeBytes(s, o);
    SecurityBytes(s, o, 0x8a);
    SecurityBytes(s, o, 0x8b);
    ChallengeBytes(s, o, 0xac);
    UserBytes(s, o);
    var c, user := Calling(s, o), UserInfo(INITIATE_REQUEST);
    var auth, mech, requ := AuthValue(0xac, c.ctos[..c.ctosSize]), Mechanism(0x8b, s.auth), Requirements(0x8a);
    BytesOne(user);
    BytesCons(auth, [user]);
    BytesCons(mech, [auth] + [user]);
    BytesCons(requ, [mech] + ([auth] + [user]));
    var tail := if s.auth == 0 then [user] else [requ] + ([mech] + ([auth] + [user]));
    BytesCons(ContextName(s.ref), tail);
    assert AarqTrees(s, o) == [ContextName(s.ref)] + tail;
  }

  lemma SoundCons(t: Tree, rest: seq<Tree>)
    requires Sound(t) && AllSound(rest)
    ensures AllSound([t] + rest)
  {
    assert ([t] + rest)[1..] == rest;
  }

  // One value inside another.
  lemma SoundNest(tag: Octet, t: Tree)
    requires Sound(t) && Constructed(tag) && |Contents(t)| <= 100
    ensures Sound(Cons(tag, [t]))
  {
    BytesOne(t);
    SoundCons(t, []);
    assert [t] + [] == [t];
  }

  lemma FieldsSound(s: Asso, o: Outside)
    requires Sane(s) && Fair(o)
    ensures Sound(ContextName(s.ref)) && Sound(ResultField(Result(s))) && Sound(Diagnostic(s.result))
            && Sound(Title(o.title))
    ensures Sound(UserInfo(InitiateResponse(o.conformance, s.ref))) && Sound(UserInfo(INITIATE_REQUEST))
  {
    hide InitiateResponse;
    SoundNest(0xa1, Oid(1, s.ref));
    SoundNest(0xa2, Prim(2, [Result(s)]));
    SoundNest(0xa1, Prim(2, [s.result]));
    BytesOne(Prim(2, [s.result]));
    SoundNest(0xa3, Cons(0xa1, [Prim(2, [s.result])]));
    SoundNest(0xa4, Prim(4, o.title));
    SoundNest(0xbe, Prim(4, InitiateResponse(o.conformance, s.ref)));
    SoundNest(0xbe, Prim(4, INITIATE_REQUEST));
  }

  lemma SecuritySound(auth: Octet, value: seq<Octet>)
    requires |value| <= 64
    ensures Sound(Requirements(0x88)) && Sound(Requirements(0x8a)) && Sound(Mechanism(0x89, auth))
            && Sound(Mechanism(0x8b, auth))
    ensures Sound(AuthValue(0xaa, value)) && Sound(AuthValue(0xac, value))
  {
    SoundNest(0xaa, Prim(0x80, value));
    SoundNest(0xac, Prim(0x80, value));
  }

  lemma AareSound(s: Asso, o: Outside)
    requires Sane(s) && Fair(o)
    ensures AllSound(AareTrees(s, o))
  {
    hide Sound, AllSound, ContextName, ResultField, Diagnostic, Title, Requirements, Mechanism, AuthValue, UserInfo;
    hide InitiateResponse;
    FieldsSound(s, o);
    SecuritySound(s.auth, o.drawn[..s.ctosSize]);
    var user := UserInfo(InitiateResponse(o.conformance, s.ref));
    var auth, mech, requ, title := AuthValue(0xaa, o.drawn[..s.ctosSize]), Mechanism(0x89, s.auth), Requirements(0x88),
      Title(o.title);
    NoneSound();
    SoundCons(user, []);
    assert [user] + [] == [user];
    SoundCons(auth, [user]);
    SoundCons(mech, [auth] + [user]);
    SoundCons(requ, [mech] + ([auth] + [user]));
    SoundCons(title, [requ] + ([mech] + ([auth] + [user])));
    var tail := if s.auth == 0 then [user] else [title] + ([requ] + ([mech] + ([auth] + [user])));
    SoundCons(Diagnostic(s.result), tail);
    SoundCons(ResultField(Result(s)), [Diagnostic(s.result)] + tail);
    SoundCons(ContextName(s.ref), [ResultField(Result(s))] + ([Diagnostic(s.result)] + tail));
    ListOf4(title, requ, mech, auth, [user]);
    ListOf3(ContextName(s.ref), ResultField(Result(s)), Diagnostic(s.result), tail);
    var head := [ContextName(s.ref), ResultField(Result(s)), Diagnostic(s.result)];
    assert AareTrees(s, o) == head + tail by {
      assert head + [] + [user] == head + [user];
      var secured := [title, requ, mech, auth];
      assert head + secured + [user] == head + (secured + [user]);
    }
  }

  lemma NoneSound()
    ensures AllSound([])
  {}

  lemma AarqSound(s: Asso, o: Outside)
    requires Sane(s) && Fair(o)
    ensures AllSound(AarqTrees(s, o))
  {
    hide Sound, AllSound, ContextName, Requirements, Mechanism, AuthValue, UserInfo, Calling;
    var c, user := Calling(s, o), UserInfo(INITIATE_REQUEST);
    FieldsSound(s, o);
    SecuritySound(s.auth, c.ctos[..c.ctosSize]);
    var auth, mech, requ := AuthValue(0xac, c.ctos[..c.ctosSize]), Mechanism(0x8b, s.auth), Requirements(0x8a);
    NoneSound();
    SoundCons(user, []);
    assert [user] + [] == [user];
    SoundCons(auth, [user]);
    SoundCons(mech, [auth] + [user]);
    SoundCons(requ, [mech] + ([auth] + [user]));
    var tail := if s.auth == 0 then [user] else [requ] + ([mech] + ([auth] + [user]));
    SoundCons(ContextName(s.ref), tail);
    assert AarqTrees(s, o) == [ContextName(s.ref)] + tail;
  }

  // A message is read back exactly when its contents fit the short form of the length.
  lemma MessageReads(tag: Octet, ts: seq<Tree>)
    requires AllSound(ts) && Constructed(tag) && |BytesAll(ts)| < 0x100
    ensures Parse(Message(tag, BytesAll(ts))) == if |BytesAll(ts)| < 0x80 then Some([Cons(tag, ts)]) else None
  {
    var t := Cons(tag, ts);
    if |BytesAll(ts)| < 0x80 {
      NoneSound();
      SoundCons(t, []);
      assert [t] + [] == [t];
      BytesOne(t);
      ParseBytes([t]);
    }
  }

  // Main result: with enough room the response is the nested message, every inner length being
  // that of its contents; the one-octet outer length is valid exactly up to a challenge of 57.
  lemma AareWellFormed(s: Asso, o: Outside, room: nat)
    requires Sane(s) && Fair(o) && room >= if s.auth == 0 then 41 else 70 + s.ctosSize
    ensures Ends(AARE_CHAIN, s, o, room)
    ensures var m := Message(AARE, Emitted(AARE_CHAIN, s, o, room));
            && |m| == 2 + (if s.auth == 0 then 41 else 70 + s.ctosSize)
            && Parse(m) == if s.auth == 0 || s.ctosSize <= 57 then Some([Cons(AARE, AareTrees(s, o))]) else None
  {
    hide Full, Ends, Emitted, BytesAll, AllSound, AareTrees, Parse;
    AareIsTrees(s, o);
    EnoughRoom(AARE_CHAIN, s, o, room);
    AareSound(s, o);
    MessageReads(AARE, AareTrees(s, o));
  }

  // The request is always valid, and wants one octet to spare.
  lemma AarqWellFormed(s: Asso, o: Outside, room: nat)
    requires Sane(s) && Fair(o) && room > if s.auth == 0 then 29 else 46 + Calling(s, o).ctosSize
    ensures Ends(AARQ_CHAIN, s, o, room)
    ensures var m := Message(AARQ, Emitted(AARQ_CHAIN, s, o, room));
            && |m| == 2 + (if s.auth == 0 then 29 else 46 + Calling(s, o).ctosSize)
            && Parse(m) == Some([Cons(AARQ, AarqTrees(s, o))])
  {
    hide Full, Ends, Emitted, BytesAll, AllSound, AarqTrees, Parse, Calling;
    AarqIsTrees(s, o);
    EnoughRoom(AARQ_CHAIN, s, o, room);
    AarqSound(s, o);
    MessageReads(AARQ, AarqTrees(s, o));
  }
}
