// The association state machine of src/csm_association.c and src/csm_channel.c: channels share
// associations, and every packet either opens, uses or releases one.
module Association {
  import opened PacketArray
  import opened Acse

  const RLRQ: Octet := 0x62
  const RLRE: Octet := 0x63
  const RLRE_REPLY: seq<Octet> := [0x63, 3, 0x80, 1, 0]

  // The pair of access points an association is configured for.
  datatype Config = Config(ssap: nat, dsap: nat, conformance: nat)

  // A channel, identified from 1 on, 0 when free, and the association it last used.
  datatype Channel = Channel(id: nat, ssap: nat, dsap: nat, asso: int)

  // What the decoder of a request leaves behind, whatever its verdict, and whether an
  // authentication value came with the request. The level and the challenge keep their old
  // values when the request does not have them; a value is taken only from 8 to 64 octets long.
  datatype Decoded = Decoded(ok: bool, auth: Octet, ref: Octet, sent: bool, ctos: seq<Octet>, ctosSize: nat)

  predicate Plausible(d: Decoded)
  {
    |d.ctos| == 64 && d.ctosSize <= 64 && (d.ok && d.sent ==> 8 <= d.ctosSize)
  }

  // An accepted request to s: without an authentication value the old one stays.
  predicate Heard(s: Asso, d: Decoded)
  {
    Plausible(d) && d.ok && (!d.sent ==> d.ctos == s.ctos && d.ctosSize == s.ctosSize)
  }

  function Learnt(s: Asso, d: Decoded): (r: Asso)
    requires Sane(s) && Plausible(d)
    ensures Sane(r)
  {
    s.(auth := d.auth, ref := d.ref, ctos := d.ctos, ctosSize := d.ctosSize)
  }

  // ----- granting -----

  // The password overwrites the head of the buffer it is compared in.
  function WithPassword(s: Asso, password: seq<Octet>): (r: Asso)
    requires Sane(s) && |password| == 8
    ensures Sane(r)
  {
    s.(stoc := Filled(s.stoc, 8, password))
  }

  // The low-level secret is compared over as many octets as the client sent.
  predicate Matches(s: Asso, password: seq<Octet>)
    requires Sane(s) && |password| == 8
  {
    WithPassword(s, password).stoc[..s.ctosSize] == s.ctos[..s.ctosSize]
  }

  function Granted(s: Asso, password: seq<Octet>): (r: Asso)
    requires Sane(s) && |password| == 8
    ensures Sane(r)
  {
    if s.cf != Idle then s
    else if s.auth == 0 then s.(cf := Associated, result := 0)
    else if s.auth == 1 then
      var t := WithPassword(s, password);
      if Matches(s, password) then t.(cf := Associated, result := 0) else t.(result := 13)
    else if s.auth == 5 then s.(cf := Pending, result := 14)
    else s.(result := 11)
  }

  // What the comparison says of the secret. Eight octets are compared with the password, fewer
  // with its head only, and what goes beyond it with what the other challenge left behind.
  predicate Proves(s: Asso, password: seq<Octet>)
    requires Sane(s) && |password| == 8
  {
    var n := s.ctosSize;
    if n <= 8 then s.ctos[..n] == password[..n]
    else s.ctos[..8] == password && s.ctos[8..n] == s.stoc[8..n]
  }

  lemma MatchesProves(s: Asso, password: seq<Octet>)
    requires Sane(s) && |password| == 8
    ensures Matches(s, password) <==> Proves(s, password)
  {
    var n, t := s.ctosSize, WithPassword(s, password).stoc;
    if n <= 8 {
      assert t[..n] == password[..n];
    } else {
      assert t[..8] == password && t[8..n] == s.stoc[8..n];
      assert t[..n] == t[..8] + t[8..n] && s.ctos[..n] == s.ctos[..8] + s.ctos[8..n];
      assert t[..n][..8] == t[..8] && s.ctos[..n][..8] == s.ctos[..8];
      assert t[..n][8..] == t[8..n] && s.ctos[..n][8..] == s.ctos[8..n];
    }
  }

  // csm_asso_is_granted.
  method IsGranted(s: Asso, password: seq<Octet>) returns (ret: bool, s': Asso)
    requires Sane(s) && |password| == 8
    ensures s' == Granted(s, password)
    ensures s.cf != Idle ==> !ret && s' == s
    ensures s.cf == Idle ==>
              && ret == (s'.cf != Idle)
              && (s'.cf == Associated <==> s.auth == 0 || (s.auth == 1 && Proves(s, password)))
              && (s'.cf == Pending <==> s.auth == 5)
              && Usual(s'.cf) && Agrees(s')
    ensures s' == s.(cf := s'.cf, result := s'.result, stoc := s'.stoc)
    ensures s'.stoc == if s.cf == Idle && s.auth == 1 then password + s.stoc[8..] else s.stoc
  {
    ret, s' := false, s;
    if s.cf == Idle {
      if s.auth == 0 {
        s' := s'.(cf := Associated, result := 0);
        ret := true;
      } else if s.auth == 1 {
        MatchesProves(s, password);
        s' := s'.(stoc := Filled(s.stoc, 8, password));
        assert password[..8] == password;
        if s'.stoc[..s.ctosSize] == s'.ctos[..s.ctosSize] {
          s' := s'.(cf := Associated, result := 0);
          ret := true;
        } else {
          s' := s'.(result := 13);
        }
      } else if s.auth == 5 {
        s' := s'.(cf := Pending, result := 14);
        ret := true;
      } else {
        s' := s'.(result := 11);
      }
    }
  }

  // The control function and the diagnostic always agree after a decision on an idle association.
  lemma GrantAgrees(s: Asso, password: seq<Octet>)
    requires Sane(s) && |password| == 8 && s.cf == Idle
    ensures var r := Granted(s, password);
            && (r.cf == Associated <==> s.auth == 0 || (s.auth == 1 && Proves(s, password)))
            && (r.cf == Pending <==> s.auth == 5)
            && Usual(r.cf)
            && Agrees(r)
  {
    hide Matches, Proves;
    MatchesProves(s, password);
  }

  // Main result: what a grant at the low level says of the request. It proves that the request
  // carried the password exactly when it carried any value, or the one left by an earlier request
  // is longer than a password and disagrees with what the server's challenge left, so that
  // nothing is granted; and that it carried the password and nothing else exactly when the value
  // has eight octets, or again nothing is granted.
  lemma GrantProvesPassword(s: Asso, d: Decoded)
    requires Sane(s) && s.cf == Idle && Heard(s, d) && d.auth == 1
    ensures var t, n := Learnt(s, d), d.ctosSize;
            var refused := n > 8 && d.ctos[8..n] != s.stoc[8..n];
            && (refused <==> forall p :: |p| == 8 ==> Granted(t, p).cf != Associated)
            && ((forall p :: |p| == 8 && Granted(t, p).cf == Associated ==> d.sent && d.ctos[..8] == p)
                <==> d.sent || refused)
            && ((forall p :: |p| == 8 && Granted(t, p).cf == Associated ==> d.sent && d.ctos[..n] == p)
                <==> (d.sent && n == 8) || refused)
  {
    hide Granted, Proves;
    var t, q := Learnt(s, d), d.ctos[..8];
    forall p: seq<Octet> | |p| == 8 ensures Granted(t, p).cf == Associated <==> Proves(t, p) {
      GrantAgrees(t, p);
    }
    ProvesOwn(t);
    assert Granted(t, q).cf == Associated <==> Proves(t, q);
    if d.ctosSize > 8 && d.ctos[8..d.ctosSize] != s.stoc[8..d.ctosSize] {
      forall p: seq<Octet> | |p| == 8 ensures !Proves(t, p) {
        ProvesTail(t, p);
      }
    } else if d.sent {
      forall p: seq<Octet> | |p| == 8 && Proves(t, p) ensures q == p {
        ProvesAll(t, p);
      }
    }
  }

  // The password is granted whenever it is the value sent, and fails with a longer one exactly
  // when the octets behind it disagree with the stale ones.
  lemma PasswordGranted(s: Asso, d: Decoded, password: seq<Octet>)
    requires Sane(s) && s.cf == Idle && Heard(s, d) && d.auth == 1 && d.sent
    requires |password| == 8 && d.ctos[..8] == password
    ensures Granted(Learnt(s, d), password).cf == Associated
            <==> d.ctosSize == 8 || d.ctos[8..d.ctosSize] == s.stoc[8..d.ctosSize]
  {
    hide Granted, Proves;
    GrantAgrees(Learnt(s, d), password);
    ProvesOwn(Learnt(s, d));
  }

  lemma ProvesTail(s: Asso, p: seq<Octet>)
    requires Sane(s) && |p| == 8 && s.ctosSize > 8 && s.ctos[8..s.ctosSize] != s.stoc[8..s.ctosSize]
    ensures !Proves(s, p)
  {}

  lemma ProvesAll(s: Asso, p: seq<Octet>)
    requires Sane(s) && |p| == 8 && s.ctosSize >= 8 && Proves(s, p)
    ensures s.ctos[..8] == p
  {
    assert p[..8] == p;
  }

  // The first octets of the client's challenge taken for the password.
  lemma ProvesOwn(s: Asso)
    requires Sane(s)
    ensures Proves(s, s.ctos[..8]) <==> s.ctosSize <= 8 || s.ctos[8..s.ctosSize] == s.stoc[8..s.ctosSize]
  {
    if s.ctosSize <= 8 {
      assert s.ctos[..8][..s.ctosSize] == s.ctos[..s.ctosSize];
    }
  }

  predicate Agrees(s: Asso)
  {
    && (s.cf == Associated ==> s.result == 0)
    && (s.cf == Pending ==> s.result == 14)
    && (s.cf == Idle ==> s.result == if s.auth == 1 then 13 else 11)
  }

  // ----- the steps -----

  datatype State = State(assos: seq<Asso>, channels: seq<Channel>)

  // Everything a packet brings in: its first octet if it has one, the room of its buffer, the
  // decoder's outcome, the outside of the encoder and what the services and the handshake answer.
  datatype Packet = Packet(tag: int, room: int, decoded: Decoded, outside: Outside, service: int,
                           handshake: int)

  datatype Reply = Nothing | Message(octets: seq<Octet>) | Release | Service(n: int) | Handshake(n: int)

  datatype Event = Execute(channel: nat, packet: Packet) | Disconnect(channel: nat) | Connect

  predicate Usable(p: Packet)
  {
    Plausible(p.decoded) && Fair(p.outside)
  }

  // csm_asso_server_execute.
  function Serve(s: Asso, p: Packet): (r: (Asso, Reply))
    requires Sane(s) && Usable(p)
    ensures Sane(r.0)
  {
    if s.cf == Idle then
      var t := Learnt(s, p.decoded);
      if !p.decoded.ok then (t, Nothing)
      else
        var g := Granted(t, p.outside.password);
        Answered(g, p)
    else if s.cf == Associated && p.tag == RLRQ as int then (s.(cf := Idle), Release)
    else (s, Nothing)
  }

  // The response, if the encoder succeeds in the room there is.
  function Answered(g: Asso, p: Packet): (r: (Asso, Reply))
    requires Sane(g) && Usable(p)
    ensures Sane(r.0)
  {
    if p.room < 2 then (g, Nothing)
    else
      var n := p.room - 2;
      (if Draws(AARE_CHAIN, g, p.outside, n) then Answering(g, p.outside) else g,
       if Ends(AARE_CHAIN, g, p.outside, n) then Reply.Message(Acse.Message(AARE, Emitted(AARE_CHAIN, g, p.outside, n)))
       else Nothing)
  }

  // The association of a channel's access points, or the number of associations.
  function Find(configs: seq<Config>, c: Channel): (i: nat)
    ensures i <= |configs|
    ensures i < |configs| ==> configs[i].ssap == c.ssap && configs[i].dsap == c.dsap
    ensures forall k :: 0 <= k < i ==> configs[k].ssap != c.ssap || configs[k].dsap != c.dsap
    decreases |configs|
  {
    if configs == [] || (configs[0].ssap == c.ssap && configs[0].dsap == c.dsap) then 0
    else
      var i := Find(configs[1..], c);
      assert forall k :: 0 < k < 1 + i ==> configs[k] == configs[1..][k - 1];
      1 + i
  }

  predicate Fits(configs: seq<Config>, st: State)
  {
    && |st.assos| == |configs|
    && (forall i :: 0 <= i < |st.assos| ==> Sane(st.assos[i]))
    && (forall k :: 0 <= k < |st.channels| ==> -1 <= st.channels[k].asso < |configs|)
  }

  predicate Possible(st: State, ev: Event)
  {
    ev.Execute? ==> ev.channel < |st.channels| && Usable(ev.packet)
  }

  // The first free channel, or the number of channels.
  function Free(channels: seq<Channel>): (i: nat)
    ensures i <= |channels|
    ensures i < |channels| ==> channels[i].id == 0
    ensures forall k :: 0 <= k < i ==> channels[k].id != 0
  {
    if channels == [] || channels[0].id == 0 then 0
    else
      var i := Free(channels[1..]);
      assert forall k :: 0 < k < 1 + i ==> channels[k] == channels[1..][k - 1];
      1 + i
  }

  function Step(configs: seq<Config>, st: State, ev: Event): (r: (State, Reply))
    requires Fits(configs, st) && Possible(st, ev)
    ensures Fits(configs, r.0) && |r.0.channels| == |st.channels|
  {
    match ev
    case Disconnect(k) =>
      if k >= |st.channels| then (st, Nothing)
      else
        var c := st.channels[k];
        (State(if c.asso >= 0 then st.assos[c.asso := st.assos[c.asso].(cf := Idle)] else st.assos,
               st.channels[k := c.(id := 0)]), Nothing)
    case Connect =>
      var i := Free(st.channels);
      (if i < |st.channels| then st.(channels := st.channels[i := st.channels[i].(id := i + 1)]) else st, Nothing)
    case Execute(k, p) =>
      var i := Find(configs, st.channels[k]);
      if i == |configs| then (st, Nothing)
      else
        var linked := st.channels[k := st.channels[k].(asso := i)];
        if p.tag < 0 then (State(st.assos, linked), Nothing)
        else if AARQ as int <= p.tag <= RLRE as int then
          var (s, reply) := Serve(st.assos[i], p);
          (State(st.assos[i := s], linked), reply)
        else
          (State(st.assos, linked),
           if st.assos[i].cf == Associated then Service(p.service)
           else if st.assos[i].cf == Pending then Handshake(p.handshake) else Nothing)
  }

  lemma {:induction false} FindIs(configs: seq<Config>, c: Channel, i: nat)
    requires i <= |configs|
    requires i < |configs| ==> configs[i].ssap == c.ssap && configs[i].dsap == c.dsap
    requires forall k :: 0 <= k < i ==> configs[k].ssap != c.ssap || configs[k].dsap != c.dsap
    ensures Find(configs, c) == i
  {
    hide Find;
  }

  lemma {:induction false} FreeIs(channels: seq<Channel>, i: nat)
    requires i <= |channels|
    requires i < |channels| ==> channels[i].id == 0
    requires forall k :: 0 <= k < i ==> channels[k].id != 0
    ensures Free(channels) == i
  {
    hide Free;
  }

  // ----- the stack -----

  class Stack {
    const configs: seq<Config>
    var assos: seq<Asso>
    var channels: seq<Channel>

    ghost predicate Valid()
      reads this
    {
      Fits(configs, Now())
    }

    ghost function Now(): State
      reads this
    {
      State(assos, channels)
    }

    // csm_channel_init, over associations and channels whose other fields have any value.
    constructor (configs: seq<Config>, assos: seq<Asso>, channels: seq<Channel>)
      requires |assos| == |configs| && forall i :: 0 <= i < |assos| ==> Sane(assos[i])
      ensures Valid() && this.configs == configs && Initial(Now()) && |this.channels| == |channels|
    {
      this.configs := configs;
      this.assos := seq(|assos|,
        i requires 0 <= i < |assos| => assos[i].(cf := Idle, auth := 0, ref := 0, result := 0));
      this.channels := seq(|channels|, i requires 0 <= i < |channels| => channels[i].(asso := -1, id := 0));
    }

    method Execute(channel: nat, packet: CsmArray, d: Decoded, o: Outside, service: int, handshake: int)
      returns (reply: Reply)
      requires Valid() && packet.Valid() && channel < |channels| && Plausible(d) && Fair(o)
      modifies this`assos, this`channels, packet`wr, packet.buff
      ensures Valid() && packet.Valid()
      ensures var tag: int := if old(packet.offset < packet.size) then old(packet.buff[packet.offset]) else -1;
              var p := Packet(tag, packet.size - packet.offset, d, o, service, handshake);
              (Now(), reply) == Step(configs, old(Now()), Event.Execute(channel, p))
      ensures reply.Message? ==> packet.Written() == reply.octets
      ensures reply.Release? && packet.size - packet.offset >= 5 ==> packet.Written() == RLRE_REPLY
    {
      hide Serve, Find, CsmArray.Written;
      reply := Nothing;
      var c := channels[channel];
      var i := 0;
      while i < |configs| && !(c.ssap == configs[i].ssap && c.dsap == configs[i].dsap)
        invariant 0 <= i <= |configs|
        invariant forall k :: 0 <= k < i ==> configs[k].ssap != c.ssap || configs[k].dsap != c.dsap
      {
        i := i + 1;
      }
      FindIs(configs, c, i);
      if i < |configs| {
        channels := channels[channel := c.(asso := i)];
        var got, tag := packet.Get(0);
        if got {
          ghost var p := Packet(tag, packet.size - packet.offset, d, o, service, handshake);
          if tag == AARE || tag == AARQ || tag == RLRE || tag == RLRQ {
            var s;
            s, reply := ServerExecute(assos[i], packet, d, o, p);
            assos := assos[i := s];
          } else if assos[i].cf == Associated {
            reply := Service(service);
          } else if assos[i].cf == Pending {
            reply := Handshake(handshake);
          }
        }
      }
    }

    method ServerExecute(s: Asso, packet: CsmArray, d: Decoded, o: Outside, ghost p: Packet)
      returns (s': Asso, reply: Reply)
      requires packet.Valid() && Sane(s) && Plausible(d) && Fair(o) && packet.offset < packet.size
      requires p.decoded == d && p.outside == o && p.tag == packet.buff[packet.offset]
               && p.room == packet.size - packet.offset
      modifies packet`wr, packet.buff
      ensures packet.Valid() && (s', reply) == Serve(s, p)
      ensures reply.Message? ==> packet.Written() == reply.octets
      ensures reply.Release? && packet.size - packet.offset >= 5 ==> packet.Written() == RLRE_REPLY
    {
      hide Learnt, Granted, Ends, Emitted, Draws, Answering, AARE_CHAIN, CsmArray.Written;
      s', reply := s, Nothing;
      if s.cf == Idle {
        s' := Learnt(s, d);
        if d.ok {
          var granted;
          granted, s' := IsGranted(s', o.password);
          ghost var g := s';
          var sent;
          sent, s' := Encode(packet, AARE, s', o);
          ChainKinds(AARE);
          if sent {
            reply := Reply.Message(packet.buff[packet.offset..packet.offset + packet.wr]);
            WrittenIs(packet);
          }
        }
      } else if s.cf == Associated {
        var got, byte := packet.Get(0);
        if got && byte == RLRQ {
          s' := s.(cf := Idle);
          packet.wr := 0;
          WrittenIs(packet);
          var _ := packet.WriteBuff(RLRE_REPLY);
          reply := Release;
        }
      }
    }

    method Disconnect(channel: nat)
      requires Valid()
      modifies this`assos, this`channels
      ensures Valid() && Now() == Step(configs, old(Now()), Event.Disconnect(channel)).0
    {
      if channel < |channels| {
        var c := channels[channel];
        channels := channels[channel := c.(id := 0)];
        if c.asso >= 0 {
          assos := assos[c.asso := assos[c.asso].(cf := Idle)];
        }
      }
    }

    // csm_channel_new.
    method Connect() returns (id: nat)
      requires Valid()
      modifies this`channels
      ensures Valid() && Now() == Step(configs, old(Now()), Event.Connect).0
      ensures id == if Free(old(channels)) < |old(channels)| then Free(old(channels)) + 1 else 0
    {
      id := 0;
      var i := 0;
      while i < |channels| && channels[i].id != 0
        invariant 0 <= i <= |channels|
        invariant forall k :: 0 <= k < i ==> channels[k].id != 0
      {
        i := i + 1;
      }
      FreeIs(channels, i);
      if i < |channels| {
        id := i + 1;
        channels := channels[i := channels[i].(id := id)];
      }
    }
  }

  lemma WrittenIs(a: CsmArray)
    requires a.Valid()
    ensures a.Written() == a.buff[a.offset..a.offset + a.wr]
  {}

  // Where csm_channel_init leaves things.
  predicate Initial(st: State)
  {
    && (forall i :: 0 <= i < |st.assos| ==> st.assos[i].cf == Idle && st.assos[i].auth == 0 && st.assos[i].result == 0)
    && (forall k :: 0 <= k < |st.channels| ==> st.channels[k].asso == -1 && st.channels[k].id == 0)
  }

  // ----- what one step can do -----

  // A packet that reaches association i with one of the four association tags.
  predicate Reaches(configs: seq<Config>, st: State, ev: Event, i: nat)
    requires Fits(configs, st) && Possible(st, ev) && i < |configs|
  {
    ev.Execute? && Find(configs, st.channels[ev.channel]) == i && AARQ as int <= ev.packet.tag <= RLRE as int
  }

  // A decoded request that finds the association idle.
  predicate Requests(configs: seq<Config>, st: State, ev: Event, i: nat)
    requires Fits(configs, st) && Possible(st, ev) && i < |configs|
  {
    Reaches(configs, st, ev, i) && st.assos[i].cf == Idle && ev.packet.decoded.ok
  }

  predicate Grants(configs: seq<Config>, st: State, ev: Event, i: nat)
    requires Fits(configs, st) && Possible(st, ev) && i < |configs|
  {
    && Requests(configs, st, ev, i)
    && var d := ev.packet.decoded;
    d.auth == 0 || (d.auth == 1 && Proves(Learnt(st.assos[i], d), ev.packet.outside.password))
  }

  predicate Challenges(configs: seq<Config>, st: State, ev: Event, i: nat)
    requires Fits(configs, st) && Possible(st, ev) && i < |configs|
  {
    Requests(configs, st, ev, i) && ev.packet.decoded.auth == 5
  }

  // A disconnection of a channel that last used the association, or a release request.
  predicate Releases(configs: seq<Config>, st: State, ev: Event, i: nat)
    requires Fits(configs, st) && Possible(st, ev) && i < |configs|
  {
    || (ev.Disconnect? && ev.channel < |st.channels| && st.channels[ev.channel].asso == i)
    || (Reaches(configs, st, ev, i) && ev.packet.tag == RLRQ as int && st.assos[i].cf == Associated)
  }

  predicate Usual(c: Control)
  {
    c == Idle || c == Pending || c == Associated
  }

  // Main result, one step: the association is entered only by a grant and left only by a
  // release, and a pending one only waits.
  lemma {:induction false} StepControl(configs: seq<Config>, st: State, ev: Event, i: nat)
    requires Fits(configs, st) && Possible(st, ev) && i < |configs| && Usual(st.assos[i].cf)
    ensures var cf, cf' := st.assos[i].cf, Step(configs, st, ev).0.assos[i].cf;
            && Usual(cf')
            && (cf' == Associated
               <==> Grants(configs, st, ev, i) || (cf == Associated && !Releases(configs, st, ev, i)))
            && (cf' == Pending <==> Challenges(configs, st, ev, i) || (cf == Pending && !Releases(configs, st, ev, i)))
  {
    hide Find, Learnt, Proves, Answering;
    if Reaches(configs, st, ev, i) {
      ServeControl(st.assos[i], ev.packet);
    }
  }

  lemma {:induction false} ServeControl(s: Asso, p: Packet)
    requires Sane(s) && Usable(p) && Usual(s.cf)
    ensures var cf', d := Serve(s, p).0.cf, p.decoded;
            && Usual(cf')
            && (cf' == Associated <==>
                  if s.cf == Idle then
                    d.ok && (d.auth == 0 || (d.auth == 1 && Proves(Learnt(s, d), p.outside.password)))
                  else s.cf == Associated && p.tag != RLRQ as int)
            && (cf' == Pending <==> if s.cf == Idle then d.ok && d.auth == 5 else s.cf == Pending)
  {
    hide Matches, Proves, Ends, Emitted, Draws;
    if s.cf == Idle && p.decoded.ok {
      GrantAgrees(Learnt(s, p.decoded), p.outside.password);
    }
  }

  // Without an authentication value what an earlier request left is compared: nothing at all at first, so that every
  // password is as good as sent, and later on the challenge or the password of an earlier client.
  lemma AbsentPassword(s: Asso, p: Packet)
    requires Sane(s) && Usable(p) && s.cf == Idle && Heard(s, p.decoded) && p.decoded.auth == 1 && !p.decoded.sent
    ensures Serve(s, p).0.cf == Associated <==> Proves(s, p.outside.password)
    ensures s.ctosSize == 0 ==> Serve(s, p).0.cf == Associated
    ensures s.ctosSize == 8 && s.ctos[..8] == p.outside.password ==> Serve(s, p).0.cf == Associated
  {
    hide Matches, Ends, Emitted, Draws;
    ServeControl(s, p);
    assert p.outside.password[..8] == p.outside.password;
  }

  // ----- the responses -----

  // The result and the diagnostic stand at fixed places.
  lemma {:induction false} ResponseOctets(s: Asso, o: Outside, room: nat)
    requires Sane(s) && Fair(o) && Ends(AARE_CHAIN, s, o, room)
    ensures var m := Acse.Message(AARE, Emitted(AARE_CHAIN, s, o, room));
            && (|m| > 17 ==> m[17] == Acse.Result(s))
            && (|m| > 24 ==> m[24] == s.result)
  {
    hide Ends, Emitted, AARE_CHAIN, Acse.Field;
    if room >= 16 {
      FieldSizes(s, o);
      FirstOctets(s, o);
      FirstFields(s, o, room);
    }
  }

  lemma FirstOctets(s: Asso, o: Outside)
    requires Sane(s) && Fair(o)
    ensures |Acse.Field(ResultInsert, s, o)| == 4 && Acse.Field(ResultInsert, s, o)[3] == Acse.Result(s)
    ensures |Acse.Field(DiagnosticInsert, s, o)| == 6 && Acse.Field(DiagnosticInsert, s, o)[5] == s.result
  {}

  // Up to the result, and on to the diagnostic when it has room.
  lemma {:induction false} FirstFields(s: Asso, o: Outside, room: nat)
    requires Sane(s) && Fair(o) && Ends(AARE_CHAIN, s, o, room) && room >= 16
    ensures exists rest :: Emitted(AARE_CHAIN, s, o, room)
              == [0xa1] + Acse.Field(AppContext, s, o) + ([6] + Acse.Field(OidContext, s, o)
                 + ([0xa2] + Acse.Field(ResultInsert, s, o) + rest))
              && |rest| <= room - 16
              && (rest != [] && room >= 23 ==>
                 exists more :: rest == [0xa3] + Acse.Field(DiagnosticInsert, s, o) + more)
              && (room < 23 ==> room == 16)
  {
    hide Ends, Emitted, Acse.Field;
    FieldSizes(s, o);
    var c := AARE_CHAIN;
    ChainStep(c, s, o, room);
    ChainStep(c[1..], s, o, room - 2);
    assert c[1..][1..] == c[2..];
    ChainStep(c[2..], s, o, room - 11);
    assert c[2..][1..] == c[3..];
    ChainStep(c[3..], s, o, room - 16);
    assert c[3..][1..] == c[4..];
    var rest := Emitted(c[3..], s, o, room - 16);
    if room >= 23 {
      var more := Emitted(c[4..], s, o, room - 23);
      assert rest == [0xa3] + Acse.Field(DiagnosticInsert, s, o) + more;
    }
  }

  // Main result: every response says accepted exactly when the association is no longer idle,
  // with the diagnostic of its state.
  lemma {:induction false} ResponseAgrees(configs: seq<Config>, st: State, ev: Event)
    requires Fits(configs, st) && Possible(st, ev)
    requires Step(configs, st, ev).1.Message?
    ensures var (st', reply) := Step(configs, st, ev);
            && ev.Execute?
            && var i := Find(configs, st.channels[ev.channel]);
            && i < |configs| && st.assos[i].cf == Idle
            && Agrees(st'.assos[i]) && Usual(st'.assos[i].cf)
            && (|reply.octets| > 17 ==> reply.octets[17] == if st'.assos[i].cf == Idle then 1 else 0)
            && (|reply.octets| > 24 ==> reply.octets[24] == st'.assos[i].result)
  {
    hide Find, Ends, Emitted, Draws, AARE_CHAIN;
    var i := Find(configs, st.channels[ev.channel]);
    var s, p := st.assos[i], ev.packet;
    var g := Granted(Learnt(s, p.decoded), p.outside.password);
    GrantAgrees(Learnt(s, p.decoded), p.outside.password);
    ResponseOctets(g, p.outside, p.room - 2);
  }

  // ----- whole runs -----

  predicate AllPossible(st: State, evs: seq<Event>)
  {
    forall k :: 0 <= k < |evs| ==> Possible(st, evs[k])
  }

  function RunTo(configs: seq<Config>, st: State, evs: seq<Event>): (r: State)
    requires Fits(configs, st) && AllPossible(st, evs)
    ensures Fits(configs, r) && |r.channels| == |st.channels|
    decreases |evs|
  {
    if evs == [] then st
    else
      var n := |evs| - 1;
      assert Possible(st, evs[n]);
      Step(configs, RunTo(configs, st, evs[..n]), evs[n]).0
  }

  // Event k of a run, in the state it meets.
  predicate GrantsAt(configs: seq<Config>, st: State, evs: seq<Event>, i: nat, k: nat)
    requires Fits(configs, st) && AllPossible(st, evs) && i < |configs| && k < |evs|
  {
    assert Possible(st, evs[k]);
    Grants(configs, RunTo(configs, st, evs[..k]), evs[k], i)
  }

  predicate ChallengesAt(configs: seq<Config>, st: State, evs: seq<Event>, i: nat, k: nat)
    requires Fits(configs, st) && AllPossible(st, evs) && i < |configs| && k < |evs|
  {
    assert Possible(st, evs[k]);
    Challenges(configs, RunTo(configs, st, evs[..k]), evs[k], i)
  }

  predicate ReleasesAt(configs: seq<Config>, st: State, evs: seq<Event>, i: nat, k: nat)
    requires Fits(configs, st) && AllPossible(st, evs) && i < |configs| && k < |evs|
  {
    assert Possible(st, evs[k]);
    Releases(configs, RunTo(configs, st, evs[..k]), evs[k], i)
  }

  predicate KeptSince(configs: seq<Config>, st: State, evs: seq<Event>, i: nat, k: nat)
    requires Fits(configs, st) && AllPossible(st, evs) && i < |configs|
  {
    forall j :: k < j < |evs| ==> !ReleasesAt(configs, st, evs, i, j)
  }

  predicate GrantedSince(configs: seq<Config>, st: State, evs: seq<Event>, i: nat)
    requires Fits(configs, st) && AllPossible(st, evs) && i < |configs|
  {
    exists k :: 0 <= k < |evs| && GrantsAt(configs, st, evs, i, k) && KeptSince(configs, st, evs, i, k)
  }

  predicate ChallengedSince(configs: seq<Config>, st: State, evs: seq<Event>, i: nat)
    requires Fits(configs, st) && AllPossible(st, evs) && i < |configs|
  {
    exists k :: 0 <= k < |evs| && ChallengesAt(configs, st, evs, i, k) && KeptSince(configs, st, evs, i, k)
  }

  // What a prefix of a run says of its events.
  lemma {:induction false} PrefixAt(configs: seq<Config>, st: State, evs: seq<Event>, i: nat, k: nat)
    requires Fits(configs, st) && AllPossible(st, evs) && i < |configs| && k < |evs| - 1
    ensures var p := evs[..|evs| - 1];
            && AllPossible(st, p)
            && GrantsAt(configs, st, p, i, k) == GrantsAt(configs, st, evs, i, k)
            && ChallengesAt(configs, st, p, i, k) == ChallengesAt(configs, st, evs, i, k)
            && ReleasesAt(configs, st, p, i, k) == ReleasesAt(configs, st, evs, i, k)
  {
    hide RunTo, Grants, Challenges, Releases;
    assert evs[..|evs| - 1][..k] == evs[..k];
  }

  // A grant or a challenge is the last one, or an earlier one and the last event no release.
  lemma {:induction false} SinceStep(configs: seq<Config>, st: State, evs: seq<Event>, i: nat)
    requires Fits(configs, st) && AllPossible(st, evs) && i < |configs| && evs != []
    ensures var n, p := |evs| - 1, evs[..|evs| - 1];
            && AllPossible(st, p)
            && (GrantedSince(configs, st, evs, i) <==>
                  GrantsAt(configs, st, evs, i, n)
                    || (GrantedSince(configs, st, p, i) && !ReleasesAt(configs, st, evs, i, n)))
            && (ChallengedSince(configs, st, evs, i) <==>
                  ChallengesAt(configs, st, evs, i, n)
                    || (ChallengedSince(configs, st, p, i) && !ReleasesAt(configs, st, evs, i, n)))
  {
    hide GrantsAt, ChallengesAt, ReleasesAt, Possible;
    var n, p := |evs| - 1, evs[..|evs| - 1];
    forall k: nat | k < n
      ensures GrantsAt(configs, st, p, i, k) == GrantsAt(configs, st, evs, i, k)
      ensures ChallengesAt(configs, st, p, i, k) == ChallengesAt(configs, st, evs, i, k)
      ensures ReleasesAt(configs, st, p, i, k) == ReleasesAt(configs, st, evs, i, k)
      ensures KeptSince(configs, st, evs, i, k)
              <==> KeptSince(configs, st, p, i, k) && !ReleasesAt(configs, st, evs, i, n)
    {
      forall j: nat | j < n ensures ReleasesAt(configs, st, p, i, j) == ReleasesAt(configs, st, evs, i, j) {
        PrefixAt(configs, st, evs, i, j);
      }
      PrefixAt(configs, st, evs, i, k);
    }
    assert KeptSince(configs, st, evs, i, n);
  }

  // Main result: after any run from an idle association, it is associated exactly when the last
  // grant has not been released since, pending exactly when the last challenge has not, and idle
  // otherwise: nothing turns a pending association into an associated one.
  lemma {:induction false} RunControl(configs: seq<Config>, st: State, evs: seq<Event>, i: nat)
    requires Fits(configs, st) && AllPossible(st, evs) && i < |configs| && st.assos[i].cf == Idle
    ensures var cf := RunTo(configs, st, evs).assos[i].cf;
            && Usual(cf)
            && (cf == Associated <==> GrantedSince(configs, st, evs, i))
            && (cf == Pending <==> ChallengedSince(configs, st, evs, i))
    decreases |evs|
  {
    hide Step, Grants, Challenges, Releases;
    if evs != [] {
      var n := |evs| - 1;
      var before := RunTo(configs, st, evs[..n]);
      SinceStep(configs, st, evs, i);
      RunControl(configs, st, evs[..n], i);
      assert Possible(st, evs[n]);
      StepControl(configs, before, evs[n], i);
      hide GrantedSince, ChallengedSince;
    }
  }

  // The number of a channel in use is its place.
  predicate Numbered(st: State)
  {
    forall k :: 0 <= k < |st.channels| ==> st.channels[k].id == 0 || st.channels[k].id == k + 1
  }

  lemma {:induction false} RunNumbered(configs: seq<Config>, st: State, evs: seq<Event>)
    requires Fits(configs, st) && AllPossible(st, evs) && Numbered(st)
    ensures Numbered(RunTo(configs, st, evs))
    decreases |evs|
  {
    hide Serve, Find;
    if evs != [] {
      RunNumbered(configs, st, evs[..|evs| - 1]);
    }
  }
}
