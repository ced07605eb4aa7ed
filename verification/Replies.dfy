// What the stack answers, and what every event leaves in the associations and the channels.
module Replies {
  import opened Wrappers
  import opened PacketArray
  import opened Tlv
  import opened Acse
  import opened Association

  // ----- one step -----

  // A packet on a channel whose access points belong to association i.
  predicate Arrives(configs: seq<Config>, st: State, ev: Event, i: nat)
    requires Fits(configs, st) && Possible(st, ev) && i < |configs|
  {
    ev.Execute? && Find(configs, st.channels[ev.channel]) == i
  }

  // A packet with a first octet that is none of the association tags, for the services.
  predicate Asks(configs: seq<Config>, st: State, ev: Event, i: nat)
    requires Fits(configs, st) && Possible(st, ev) && i < |configs|
  {
    Arrives(configs, st, ev, i) && ev.packet.tag >= 0 && !(0x60 <= ev.packet.tag <= 0x63)
  }

  // A release request.
  predicate AsksRelease(configs: seq<Config>, st: State, ev: Event, i: nat)
    requires Fits(configs, st) && Possible(st, ev) && i < |configs|
  {
    Arrives(configs, st, ev, i) && ev.packet.tag == 0x62
  }

  // The association as the decision on a request leaves it, before the answer is encoded.
  function Decided(s: Asso, p: Packet): (r: Asso)
    requires Sane(s) && Usable(p)
    ensures Sane(r)
  {
    Granted(Learnt(s, p.decoded), p.outside.password)
  }

  // An accepted request with room for its response.
  predicate Answerable(configs: seq<Config>, st: State, ev: Event, i: nat)
    requires Fits(configs, st) && Possible(st, ev) && i < |configs|
  {
    && Requests(configs, st, ev, i) && ev.packet.room >= 2
    && Ends(AARE_CHAIN, Decided(st.assos[i], ev.packet), ev.packet.outside, ev.packet.room - 2)
  }

  // Main result, one step: the exact condition of each reply. The services are reached by an
  // associated association only, the access of the handshake by a pending one, a release by an
  // associated one, and a response is made for an accepted request of an idle one.
  lemma {:induction false} StepReply(configs: seq<Config>, st: State, ev: Event)
    requires Fits(configs, st) && Possible(st, ev)
    ensures var reply := Step(configs, st, ev).1;
            && (reply.Service? <==> exists i: nat :: i < |configs| && Asks(configs, st, ev, i)
                                      && st.assos[i].cf == Associated)
            && (reply.Service? ==> reply.n == ev.packet.service)
            && (reply.Handshake? <==> exists i: nat :: i < |configs| && Asks(configs, st, ev, i)
                                        && st.assos[i].cf == Pending)
            && (reply.Handshake? ==> reply.n == ev.packet.handshake)
            && (reply.Release? <==> exists i: nat :: i < |configs| && AsksRelease(configs, st, ev, i)
                                      && st.assos[i].cf == Associated)
            && (reply.Message? <==> exists i: nat :: i < |configs| && Answerable(configs, st, ev, i))
  {
    hide Find, Learnt, Granted, Answering, Draws, Ends, Emitted;
    if ev.Execute? {
      var i := Find(configs, st.channels[ev.channel]);
      if i < |configs| {
        assert Arrives(configs, st, ev, i);
        ReplyAt(configs, st, ev, i);
      }
    }
  }

  // The reply to a packet that finds its association.
  lemma {:induction false} ReplyAt(configs: seq<Config>, st: State, ev: Event, i: nat)
    requires Fits(configs, st) && Possible(st, ev) && i < |configs| && Arrives(configs, st, ev, i)
    ensures Step(configs, st, ev).1 ==
              if Answerable(configs, st, ev, i) then
                var p := ev.packet;
                Reply.Message(Acse.Message(0x61, Emitted(AARE_CHAIN, Decided(st.assos[i], p), p.outside, p.room - 2)))
              else if AsksRelease(configs, st, ev, i) && st.assos[i].cf == Associated then Release
              else if Asks(configs, st, ev, i) && st.assos[i].cf == Associated then Service(ev.packet.service)
              else if Asks(configs, st, ev, i) && st.assos[i].cf == Pending then Handshake(ev.packet.handshake)
              else Nothing
  {
    hide Find, Learnt, Granted, Answering, Draws, Ends, Emitted;
  }

  // The release response is a well-formed message: reason 0, normal.
  lemma ReleaseReads()
    ensures Parse(RLRE_REPLY) == Some([Cons(0x63, [Prim(0x80, [0])])])
  {
    var t := Cons(0x63, [Prim(0x80, [0])]);
    assert BytesAll([Prim(0x80, [0])]) == Bytes(Prim(0x80, [0])) + [] == [0x80, 1, 0];
    assert BytesAll([t]) == Bytes(t) + [] == RLRE_REPLY;
    assert AllSound([Prim(0x80, [0])]) && AllSound([]) by {
      assert Sound(Prim(0x80, [0]));
    }
    ParseBytes([t]);
  }

  // ----- what one step leaves -----

  // Channel k after an event.
  function ChannelAfter(configs: seq<Config>, st: State, ev: Event, k: nat): Channel
    requires Fits(configs, st) && Possible(st, ev) && k < |st.channels|
  {
    var c := st.channels[k];
    match ev
    case Execute(j, _) => if j == k && Find(configs, c) < |configs| then c.(asso := Find(configs, c)) else c
    case Disconnect(j) => if j == k then c.(id := 0) else c
    case Connect => if c.id == 0 && forall j :: 0 <= j < k ==> st.channels[j].id != 0 then c.(id := k + 1) else c
  }

  // Every channel after an event: a packet links its channel to the association it finds, a
  // disconnection frees its channel, a connection takes the first free one and numbers it by its
  // place, and no other channel changes.
  lemma {:induction false} StepChannels(configs: seq<Config>, st: State, ev: Event, k: nat)
    requires Fits(configs, st) && Possible(st, ev) && k < |st.channels|
    ensures Step(configs, st, ev).0.channels[k] == ChannelAfter(configs, st, ev, k)
  {
    hide Serve, Find;
    var i := Free(st.channels);
    if ev.Connect? && k < i {
      assert st.channels[k].id != 0;
    }
  }

  // An association that a request or a release reaches.
  predicate Concerns(configs: seq<Config>, st: State, ev: Event, i: nat)
    requires Fits(configs, st) && Possible(st, ev) && i < |configs|
  {
    Arrives(configs, st, ev, i) && 0x60 <= ev.packet.tag <= 0x63
  }

  // Every association after an event. One that no request or release reaches only loses its
  // control function, to a disconnection of a channel that last used it; a release changes nothing
  // else either; and a request is learnt whole, with the decision and the challenge it draws.
  lemma {:induction false} StepAssociation(configs: seq<Config>, st: State, ev: Event, i: nat)
    requires Fits(configs, st) && Possible(st, ev) && i < |configs|
    ensures var s, r := st.assos[i], Step(configs, st, ev).0.assos[i];
            && (!Concerns(configs, st, ev, i) ==>
                  r == if Releases(configs, st, ev, i) then s.(cf := Idle) else s)
            && (Concerns(configs, st, ev, i) && s.cf != Idle ==>
                  r == if Releases(configs, st, ev, i) then s.(cf := Idle) else s)
            && (Concerns(configs, st, ev, i) && s.cf == Idle ==>
                  var d := ev.packet.decoded;
                  && r.auth == d.auth && r.ref == d.ref && r.ctos == d.ctos && r.ctosSize == d.ctosSize
                  && (!d.ok ==> r == Learnt(s, d)))
  {
    hide Find, Granted, Ends, Emitted, Draws;
    if Concerns(configs, st, ev, i) && st.assos[i].cf == Idle {
      DecidedKeeps(Learnt(st.assos[i], ev.packet.decoded), ev.packet.outside.password);
    }
  }

  lemma DecidedKeeps(s: Asso, password: seq<Octet>)
    requires Sane(s) && |password| == 8
    ensures var g := Granted(s, password);
            g == s.(cf := g.cf, result := g.result, stoc := g.stoc)
  {}

  // ----- whole runs -----

  // The reply to the last event of a run.
  function LastReply(configs: seq<Config>, st: State, evs: seq<Event>): Reply
    requires Fits(configs, st) && AllPossible(st, evs) && evs != []
  {
    var n := |evs| - 1;
    assert Possible(st, evs[n]);
    Step(configs, RunTo(configs, st, evs[..n]), evs[n]).1
  }

  // Main result, over all runs from idle associations: the services answer exactly a packet for
  // an association whose last grant has not been released since, the access of the handshake one
  // whose last challenge has not, and a release is answered exactly to a release request for one
  // whose last grant has not.
  lemma {:induction false} RunReplies(configs: seq<Config>, st: State, evs: seq<Event>)
    requires Fits(configs, st) && AllPossible(st, evs) && evs != []
    requires forall i :: 0 <= i < |configs| ==> st.assos[i].cf == Idle
    ensures AllPossible(st, evs[..|evs| - 1]) && Possible(RunTo(configs, st, evs[..|evs| - 1]), evs[|evs| - 1])
    ensures var n, p := |evs| - 1, evs[..|evs| - 1];
            var now, reply := RunTo(configs, st, p), LastReply(configs, st, evs);
            && (reply.Service? <==> exists i: nat :: i < |configs| && Asks(configs, now, evs[n], i)
                                      && GrantedSince(configs, st, p, i))
            && (reply.Handshake? <==> exists i: nat :: i < |configs| && Asks(configs, now, evs[n], i)
                                        && ChallengedSince(configs, st, p, i))
            && (reply.Release? <==> exists i: nat :: i < |configs| && AsksRelease(configs, now, evs[n], i)
                                      && GrantedSince(configs, st, p, i))
  {
    hide Step, Asks, AsksRelease, Answerable, GrantedSince, ChallengedSince;
    var n, p := |evs| - 1, evs[..|evs| - 1];
    var now := RunTo(configs, st, p);
    assert Possible(st, evs[n]);
    StepReply(configs, now, evs[n]);
    forall i: nat | i < |configs|
      ensures now.assos[i].cf == Associated <==> GrantedSince(configs, st, p, i)
      ensures now.assos[i].cf == Pending <==> ChallengedSince(configs, st, p, i)
    {
      RunControl(configs, st, p, i);
    }
  }

  // The association a channel is linked to is always the one its access points find, once a
  // packet has come on it; a connection or a disconnection does not change it.
  predicate Linked(configs: seq<Config>, st: State, k: nat)
    requires k < |st.channels|
  {
    var c := st.channels[k];
    c.asso == -1 || (c.asso == Find(configs, c) && c.asso < |configs|)
  }

  lemma {:induction false} RunLinked(configs: seq<Config>, st: State, evs: seq<Event>, k: nat)
    requires Fits(configs, st) && AllPossible(st, evs) && k < |st.channels| && Linked(configs, st, k)
    ensures Linked(configs, RunTo(configs, st, evs), k)
    ensures var c, d := st.channels[k], RunTo(configs, st, evs).channels[k];
            && (d.ssap, d.dsap) == (c.ssap, c.dsap)
            && (d.asso != c.asso ==>
                  c.asso == -1 && exists j :: 0 <= j < |evs| && evs[j].Execute? && evs[j].channel == k)
    decreases |evs|
  {
    hide Step, Find;
    if evs != [] {
      var n := |evs| - 1;
      RunLinked(configs, st, evs[..n], k);
      assert Possible(st, evs[n]);
      var before := RunTo(configs, st, evs[..n]);
      StepChannels(configs, before, evs[n], k);
      SameFind(configs, st.channels[k], before.channels[k]);
      SameFind(configs, before.channels[k], RunTo(configs, st, evs).channels[k]);
      if evs[n].Execute? && evs[n].channel == k {
        assert evs[n].Execute? && evs[n].channel == k;
      } else if before.channels[k].asso != st.channels[k].asso {
        var j :| 0 <= j < n && evs[..n][j].Execute? && evs[..n][j].channel == k;
        assert evs[j] == evs[..n][j];
      }
    }
  }

  lemma {:induction false} SameFind(configs: seq<Config>, c: Channel, d: Channel)
    requires (c.ssap, c.dsap) == (d.ssap, d.dsap)
    ensures Find(configs, c) == Find(configs, d)
  {
    hide Find;
    FindIs(configs, d, Find(configs, c));
  }
}
