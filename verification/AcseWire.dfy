// The messages of the association handshake octet by octet.
module AcseWire {
  import opened Memory
  import opened PacketArray
  import opened Acse

  function Weighted(a: int, b: int, c: int): int { a * 0x10000 + b * 0x100 + c }

  // The conformance block: its low 24 bits, most significant octet first.
  lemma BlockReads(value: nat)
    ensures var b := Block(value);
            |b| == 3 && Weighted(b[0], b[1], b[2]) == value % 0x1000000
  {
    var q := value / 0x100;
    var p := q / 0x100;
    DivTwice(value);
    LowDigits(p / 0x100, p % 0x100, q % 0x100, value % 0x100);
  }

  lemma DivTwice(value: nat)
    ensures value / 0x10000 == value / 0x100 / 0x100
  {}

  lemma LowDigits(d: nat, a: Octet, b: Octet, c: Octet)
    ensures (d * 0x1000000 + a * 0x10000 + b * 0x100 + c) % 0x1000000 == a * 0x10000 + b * 0x100 + c
  {}

  // ----- the response -----

  // The context name, the result and the diagnostic.
  function AareHead(s: Asso): seq<Octet>
  {
    [0xa1, 9, 6, 7, 0x60, 0x85, 0x74, 5, 8, 1, s.ref,
     0xa2, 3, 2, 1, if s.cf == Idle then 1 else 0,
     0xa3, 5, 0xa1, 3, 2, 1, s.result]
  }

  // The title, the requirements, the mechanism and the challenge.
  function AareSecurity(s: Asso, o: Outside): seq<Octet>
    requires Sane(s) && Fair(o)
  {
    [0xa4, 10, 4, 8] + o.title
    + [0x88, 2, 7, 0x80, 0x89, 7, 0x60, 0x85, 0x74, 5, 8, 2, s.auth]
    + ([0xaa, s.ctosSize + 2, 0x80, s.ctosSize] + o.drawn[..s.ctosSize])
  }

  // The user information.
  function AareUser(s: Asso, o: Outside): seq<Octet>
  {
    [0xbe, 16, 4, 14, 8, 0, 6, 0x5f, 0x1f, 4, 0] + Block(o.conformance)
    + [4, 0] + if s.ref == 1 || s.ref == 3 then [0, 7] else [0xfa, 0]
  }

  // The fields with their tags, one by one.
  lemma PlainFields(s: Asso, o: Outside)
    requires Sane(s) && Fair(o)
    ensures With(0xa1, false, AppContext, s, o) == [0xa1, 9]
    ensures With(6, false, OidContext, s, o) == [6, 7, 0x60, 0x85, 0x74, 5, 8, 1, s.ref]
    ensures With(0xa2, false, ResultInsert, s, o) == [0xa2, 3, 2, 1, if s.cf == Idle then 1 else 0]
    ensures With(0xa3, false, DiagnosticInsert, s, o) == [0xa3, 5, 0xa1, 3, 2, 1, s.result]
  {
    assert [7] + OID + [1, s.ref] == [7, 0x60, 0x85, 0x74, 5, 8, 1, s.ref];
  }

  lemma SecuredFields(s: Asso, o: Outside, tag: Octet)
    requires Sane(s) && Fair(o) && s.auth != 0
    ensures With(tag, true, RequirementsInsert, s, o) == [tag, 2, 7, 0x80]
    ensures With(tag, true, OidMechanism, s, o) == [tag, 7, 0x60, 0x85, 0x74, 5, 8, 2, s.auth]
    ensures With(0xa4, true, TitleInsert, s, o) == [0xa4, 10, 4, 8] + o.title
    ensures With(0xaa, true, ResponderAuth, s, o) == [0xaa, s.ctosSize + 2, 0x80, s.ctosSize] + o.drawn[..s.ctosSize]
  {
    assert [7] + OID + [2, s.auth] == [7, 0x60, 0x85, 0x74, 5, 8, 2, s.auth];
  }

  lemma HeadFields(s: Asso, o: Outside, rest: seq<Octet>)
    requires Sane(s) && Fair(o)
    ensures With(0xa1, false, AppContext, s, o)
            + (With(6, false, OidContext, s, o)
               + (With(0xa2, false, ResultInsert, s, o) + (With(0xa3, false, DiagnosticInsert, s, o) + rest)))
            == AareHead(s) + rest
  {
    hide With;
    PlainFields(s, o);
    var a: seq<Octet>, b: seq<Octet> := [0xa1, 9], [6, 7, 0x60, 0x85, 0x74, 5, 8, 1, s.ref];
    var c: seq<Octet> := [0xa2, 3, 2, 1, if s.cf == Idle then 1 else 0];
    var d: seq<Octet> := [0xa3, 5, 0xa1, 3, 2, 1, s.result];
    assert a + b + (c + d) == AareHead(s);
    Regroup4(a, b, c, d, rest);
  }

  lemma Regroup4(a: seq<Octet>, b: seq<Octet>, c: seq<Octet>, d: seq<Octet>, rest: seq<Octet>)
    ensures a + (b + (c + (d + rest))) == a + b + (c + d) + rest
  {}

  lemma SecurityFields(s: Asso, o: Outside, rest: seq<Octet>)
    requires Sane(s) && Fair(o) && s.auth != 0
    ensures With(0xa4, true, TitleInsert, s, o)
            + (With(0x88, true, RequirementsInsert, s, o)
               + (With(0x89, true, OidMechanism, s, o) + (With(0xaa, true, ResponderAuth, s, o) + rest)))
            == AareSecurity(s, o) + rest
  {
    hide With;
    SecuredFields(s, o, 0x88);
    SecuredFields(s, o, 0x89);
    var b: seq<Octet>, c: seq<Octet> := [0x88, 2, 7, 0x80], [0x89, 7, 0x60, 0x85, 0x74, 5, 8, 2, s.auth];
    assert b + c == [0x88, 2, 7, 0x80, 0x89, 7, 0x60, 0x85, 0x74, 5, 8, 2, s.auth];
    RegroupMiddle([0xa4, 10, 4, 8] + o.title, b, c,
                  [0xaa, s.ctosSize + 2, 0x80, s.ctosSize] + o.drawn[..s.ctosSize], rest);
  }

  lemma RegroupMiddle(a: seq<Octet>, b: seq<Octet>, c: seq<Octet>, d: seq<Octet>, rest: seq<Octet>)
    ensures a + (b + (c + (d + rest))) == a + (b + c) + d + rest
  {}

  lemma UserFields(s: Asso, o: Outside)
    requires Sane(s) && Fair(o)
    ensures With(0xbe, false, InitiateResponseInsert, s, o) == AareUser(s, o)
  {
    hide Block;
    var b := Block(o.conformance);
    var vaa: seq<Octet> := if s.ref == 1 || s.ref == 3 then [0, 7] else [0xfa, 0];
    var h: seq<Octet>, i: seq<Octet> := [0xbe, 16, 4, 14], [8, 0, 6, 0x5f, 0x1f, 4, 0];
    assert h + i == [0xbe, 16, 4, 14, 8, 0, 6, 0x5f, 0x1f, 4, 0];
    assert [0xbe] + ([16, 4, 14] + (i + b + [4, 0] + vaa)) == h + i + b + [4, 0] + vaa;
  }

  // Main result: the fields of the response, octet by octet.
  lemma AareIsOctets(s: Asso, o: Outside)
    requires Sane(s) && Fair(o)
    ensures Full(AARE_CHAIN, s, o) == AareHead(s) + (if s.auth == 0 then [] else AareSecurity(s, o)) + AareUser(s, o)
  {
    hide Field, Full, AareHead, AareSecurity, AareUser;
    AareFields(s, o);
    UserFields(s, o);
    var user := AareUser(s, o);
    if s.auth == 0 {
      HeadFields(s, o, user);
      NoSecurity(user);
      assert AareHead(s) + [] == AareHead(s);
    } else {
      HeadFields(s, o, AareSecurity(s, o) + user);
      SecurityFields(s, o, user);
      Associative(AareHead(s), AareSecurity(s, o), user);
    }
  }

  lemma NoSecurity(user: seq<Octet>)
    ensures [] + ([] + ([] + ([] + user))) == user
    ensures [] + ([] + ([] + user)) == user
  {}

  // ----- the request -----

  function AarqHead(s: Asso): seq<Octet>
  {
    [0xa1, 9, 6, 7, 0x60, 0x85, 0x74, 5, 8, 1, s.ref]
  }

  // The password for the low level, a challenge otherwise.
  function AarqSecurity(s: Asso, o: Outside): seq<Octet>
    requires Fair(o)
  {
    [0x8a, 2, 7, 0x80, 0x8b, 7, 0x60, 0x85, 0x74, 5, 8, 2, s.auth]
    + if s.auth == 1 then [0xac, 10, 0x80, 8] + o.password
      else [0xac, o.size + 2, 0x80, o.size] + o.drawn[..o.size]
  }

  const AARQ_USER: seq<Octet> :=
    [0xbe, 16, 4, 14, 1, 0, 0, 0, 6, 0x5f, 0x1f, 4, 0, 0xff, 0xff, 0xff, 0xff, 0xff]

  lemma RequestFields(s: Asso, o: Outside, rest: seq<Octet>)
    requires Sane(s) && Fair(o)
    ensures With(0xa1, false, AppContext, s, o) + (With(6, false, OidContext, s, o) + rest) == AarqHead(s) + rest
  {
    hide With;
    PlainFields(s, o);
    var a: seq<Octet>, b: seq<Octet> := [0xa1, 9], [6, 7, 0x60, 0x85, 0x74, 5, 8, 1, s.ref];
    assert a + b == AarqHead(s);
    Associative(a, b, rest);
  }

  lemma RequestUser(s: Asso, o: Outside)
    requires Sane(s) && Fair(o)
    ensures With(0xbe, false, InitiateRequestInsert, s, o) == AARQ_USER
  {}

  lemma CallingFields(s: Asso, o: Outside, rest: seq<Octet>)
    requires Sane(s) && Fair(o) && s.auth != 0
    ensures With(0x8a, true, RequirementsInsert, s, o)
            + (With(0x8b, true, OidMechanism, s, o) + (With(0xac, true, CallingAuth, s, o) + rest))
            == AarqSecurity(s, o) + rest
  {
    hide With;
    SecuredFields(s, o, 0x8a);
    SecuredFields(s, o, 0x8b);
    CallingValue(s, o);
    var a: seq<Octet>, b: seq<Octet> := [0x8a, 2, 7, 0x80], [0x8b, 7, 0x60, 0x85, 0x74, 5, 8, 2, s.auth];
    assert a + b == [0x8a, 2, 7, 0x80, 0x8b, 7, 0x60, 0x85, 0x74, 5, 8, 2, s.auth];
    Regroup3(a, b, With(0xac, true, CallingAuth, s, o), rest);
  }

  lemma CallingValue(s: Asso, o: Outside)
    requires Sane(s) && Fair(o) && s.auth != 0
    ensures With(0xac, true, CallingAuth, s, o)
            == if s.auth == 1 then [0xac, 10, 0x80, 8] + o.password
               else [0xac, o.size + 2, 0x80, o.size] + o.drawn[..o.size]
  {
    var c := Calling(s, o);
    if s.auth == 1 {
      assert c.ctos[..8] == o.password;
    } else {
      assert c.ctos[..o.size] == o.drawn[..o.size];
    }
  }

  lemma Regroup3(a: seq<Octet>, b: seq<Octet>, c: seq<Octet>, rest: seq<Octet>)
    ensures a + (b + (c + rest)) == a + b + c + rest
  {}

  // Main result: the fields of the request, octet by octet.
  lemma AarqIsOctets(s: Asso, o: Outside)
    requires Sane(s) && Fair(o)
    ensures Full(AARQ_CHAIN, s, o) == AarqHead(s) + (if s.auth == 0 then [] else AarqSecurity(s, o)) + AARQ_USER
  {
    hide Field, Full, AarqHead, AarqSecurity, AARQ_USER;
    AarqFields(s, o);
    RequestUser(s, o);
    if s.auth == 0 {
      RequestFields(s, o, AARQ_USER);
      NoSecurity(AARQ_USER);
      assert AarqHead(s) + [] == AarqHead(s);
    } else {
      RequestFields(s, o, AarqSecurity(s, o) + AARQ_USER);
      CallingFields(s, o, AARQ_USER);
      Associative(AarqHead(s), AarqSecurity(s, o), AARQ_USER);
    }
  }

  // ----- the challenges -----

  // What is kept of a challenge or a password is what is sent, and the rest of its buffer stays.
  lemma ChallengeKept(s: Asso, o: Outside)
    requires Sane(s) && Fair(o)
    ensures var r := Answering(s, o);
            && r == s.(stoc := r.stoc, stocSize := s.ctosSize)
            && r.stoc[..r.stocSize] == o.drawn[..s.ctosSize] && r.stoc[r.stocSize..] == s.stoc[s.ctosSize..]
    ensures var c := Calling(s, o);
            && c == s.(ctos := c.ctos, ctosSize := if s.auth == 1 then 8 else o.size)
            && c.ctos[..c.ctosSize] == (if s.auth == 1 then o.password else o.drawn[..o.size])
            && c.ctos[c.ctosSize..] == s.ctos[c.ctosSize..]
  {}
}
