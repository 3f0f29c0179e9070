/**
 The handshake against the running server: datagram by datagram, with any other traffic
 between RAKP Message 1 and RAKP Message 3.
 */
module HandshakeRuns {
  import opened Bytes
  import opened Wrappers
  import opened Crypto
  import opened Accounts
  import opened RmcpPlus
  import opened IpmiServer
  import opened SessionRuns
  import opened Handshake
  import Msg = IpmiMessage

  function Datagram(kind: byte, payload: Bytes): Bytes {
    Msg.SerializeRmcp(Msg.RMCP_CLASS_IPMI, Packet(kind, 0, 0, payload))
  }

  /** The RMCP+ packet inside a framed reply. */
  function Inner(reply: Reply): Reply {
    if reply.Sent? && |reply.data| >= 4 then Sent(reply.data[4..]) else reply
  }

  /** The input neither grants nor addresses session `id`. */
  predicate Elsewhere(id: uint32, input: Input) {
    match RmcpPlusPacket(input.data)
    case None => true
    case Some(p) => Addressed(p, input.draws) != Some(id)
  }

  /** Traffic addressed elsewhere leaves the whole session as it is. */
  lemma {:induction false} ElsewhereKeepsSession<M(!new)>(c: Crypto, host: Host<M>, st: ServerState<M>, inputs: seq<Input>, id: uint32)
    requires Invariant(c, st.sessions) && id in st.sessions
    requires forall i :: 0 <= i < |inputs| ==> Elsewhere(id, inputs[i])
    ensures var st' := Serve(c, host, st, inputs).0;
      Invariant(c, st'.sessions) && id in st'.sessions && st'.sessions[id] == st.sessions[id]
    decreases |inputs|
  {
    if inputs != [] {
      var n := |inputs| - 1;
      ElsewhereKeepsSession(c, host, st, inputs[..n], id);
      var mid := Serve(c, host, st, inputs[..n]).0;
      DatagramKeepsInvariant(c, host, mid.sessions, mid.world, inputs[n].data, inputs[n].draws);
    }
  }

  /** What RAKP Messages 1 and 2 exchanged, as the session holds it. */
  ghost predicate SameExchange(s: SessionView, t: SessionView) {
    && s.id == t.id && s.remoteId == t.remoteId
    && s.remoteRandom == t.remoteRandom && s.managedRandom == t.managedRandom && s.guid == t.guid
    && s.role == t.role && s.userName == t.userName && s.userNameLength == t.userNameLength
  }

  predicate IsRakp1For(id: uint32, data: Bytes) {
    var p := RmcpPlusPacket(data);
    && p.Some? && ParseHeader(p.value).payloadType % 0x40 == PAYLOAD_RAKP_1
    && |p.value| >= HEADER_SIZE + 8 && FromLe32(p.value[HEADER_SIZE..][4..8]) == id
  }

  /** Anything goes, in the session and out of it, but another RAKP Message 1 for `id` and a
      grant of `id` to a new session. */
  predicate LeavesExchange(id: uint32, input: Input, reply: Reply) {
    !IsRakp1For(id, input.data) && !Opens(id, input.data, reply)
  }

  lemma PacketKeepsExchange<M(!new)>(c: Crypto, host: Host<M>, sessions: Sessions, world: World<M>, packet: Bytes, draws: Draws, id: uint32)
    requires id in sessions && |packet| >= HEADER_SIZE
    ensures var step := HandleMessage(c, host, sessions, world, packet, draws);
      var kind, payload := ParseHeader(packet).payloadType % 0x40, packet[HEADER_SIZE..];
      || (kind == PAYLOAD_OPEN_SESSION_REQUEST && GrantsOnWire(id, Framed(step.reply)))
      || (kind == PAYLOAD_RAKP_1 && |payload| >= 8 && FromLe32(payload[4..8]) == id)
      || (id in step.sessions && SameExchange(sessions[id], step.sessions[id]))
  {
    var h := ParseHeader(packet);
    var kind, payload := h.payloadType % 0x40, packet[HEADER_SIZE..];
    if kind == PAYLOAD_OPEN_SESSION_REQUEST {
      OpenSessionEffect(sessions, payload, draws);
      if OpenSession(sessions, payload, draws).1 != sessions {
        AcceptedReplyShowsId(payload[0],
          Negotiated(NewSession(FromLe32(payload[4..8]), draws.sessionId.value, draws.random.value, draws.guid.value)));
      }
    } else if kind == PAYLOAD_RAKP_1 {
      Rakp1Effect(c, host, sessions, world.users, payload);
    } else if kind == PAYLOAD_RAKP_3 {
      Rakp3Effect(c, host, sessions, world.users, payload);
    } else if kind == PAYLOAD_IPMI && h.sessionId != 0 {
      InSessionEffect(c, host, sessions, world, packet, draws);
    }
  }

  lemma TurnKeepsExchange<M(!new)>(c: Crypto, host: Host<M>, st: ServerState<M>, input: Input, id: uint32)
    requires id in st.sessions && LeavesExchange(id, input, ServeOne(c, host, st, input).1)
    ensures var st' := ServeOne(c, host, st, input).0;
      id in st'.sessions && SameExchange(st.sessions[id], st'.sessions[id])
  {
    if !st.stopped && RmcpPlusPacket(input.data).Some? {
      PacketKeepsExchange(c, host, st.sessions, st.world, RmcpPlusPacket(input.data).value, input.draws, id);
    }
  }

  /** Traffic for the session itself included, the exchange stays as it was. */
  lemma {:induction false} TrafficKeepsExchange<M(!new)>(c: Crypto, host: Host<M>, st: ServerState<M>, inputs: seq<Input>, id: uint32)
    requires Invariant(c, st.sessions) && id in st.sessions
    requires var replies := Serve(c, host, st, inputs).1;
      forall i :: 0 <= i < |inputs| ==> LeavesExchange(id, inputs[i], replies[i])
    ensures var st' := Serve(c, host, st, inputs).0;
      Invariant(c, st'.sessions) && id in st'.sessions && SameExchange(st.sessions[id], st'.sessions[id])
    decreases |inputs|
  {
    if inputs != [] {
      var n := |inputs| - 1;
      var (mid, before) := Serve(c, host, st, inputs[..n]);
      var replies := Serve(c, host, st, inputs).1;
      assert replies[..n] == before;
      forall i | 0 <= i < n ensures LeavesExchange(id, inputs[..n][i], before[i]) {
        assert before[i] == replies[i];
      }
      TrafficKeepsExchange(c, host, st, inputs[..n], id);
      assert LeavesExchange(id, inputs[n], replies[n]);
      TurnKeepsExchange(c, host, mid, inputs[n], id);
      DatagramKeepsInvariant(c, host, mid.sessions, mid.world, inputs[n].data, inputs[n].draws);
    }
  }

  lemma ServePacket<M(!new)>(c: Crypto, host: Host<M>, st: ServerState<M>, kind: byte, payload: Bytes, draws: Draws)
    requires !st.stopped
    ensures |Packet(kind, 0, 0, payload)| >= HEADER_SIZE
    ensures var (st', reply) := ServeOne(c, host, st, Input(Datagram(kind, payload), draws));
      var step := HandleMessage(c, host, st.sessions, st.world, Packet(kind, 0, 0, payload), draws);
      st' == ServerState(step.sessions, step.world, step.reply.Panicked?) && Inner(reply) == step.reply
  {
    PacketParses(kind, 0, 0, |payload|, payload);
    DatagramIsPacket(c, host, st.sessions, st.world, Packet(kind, 0, 0, payload), draws);
  }

  lemma DispatchesRakp1<M(!new)>(c: Crypto, host: Host<M>, sessions: Sessions, world: World<M>, data: Bytes, draws: Draws)
    requires |data| >= HEADER_SIZE && ParseHeader(data).payloadType % 0x40 == PAYLOAD_RAKP_1
    ensures var (reply, sessions') := Rakp1(c, host, sessions, world.users, data[HEADER_SIZE..]);
      HandleMessage(c, host, sessions, world, data, draws) == Step(reply, sessions', world)
  {
  }

  lemma Rakp1Dispatch<M(!new)>(c: Crypto, host: Host<M>, sessions: Sessions, world: World<M>, payload: Bytes, draws: Draws)
    ensures var (reply, sessions') := Rakp1(c, host, sessions, world.users, payload);
      HandleMessage(c, host, sessions, world, Packet(PAYLOAD_RAKP_1, 0, 0, payload), draws) == Step(reply, sessions', world)
  {
    PacketParses(PAYLOAD_RAKP_1, 0, 0, |payload|, payload);
    DispatchesRakp1(c, host, sessions, world, Packet(PAYLOAD_RAKP_1, 0, 0, payload), draws);
  }

  lemma DispatchesRakp3<M(!new)>(c: Crypto, host: Host<M>, sessions: Sessions, world: World<M>, data: Bytes, draws: Draws)
    requires |data| >= HEADER_SIZE && ParseHeader(data).payloadType % 0x40 == PAYLOAD_RAKP_3
    ensures var (reply, sessions') := Rakp3(c, host, sessions, world.users, data[HEADER_SIZE..]);
      HandleMessage(c, host, sessions, world, data, draws) == Step(reply, sessions', world)
  {
  }

  lemma Rakp3Dispatch<M(!new)>(c: Crypto, host: Host<M>, sessions: Sessions, world: World<M>, payload: Bytes, draws: Draws)
    ensures var (reply, sessions') := Rakp3(c, host, sessions, world.users, payload);
      HandleMessage(c, host, sessions, world, Packet(PAYLOAD_RAKP_3, 0, 0, payload), draws) == Step(reply, sessions', world)
  {
    PacketParses(PAYLOAD_RAKP_3, 0, 0, |payload|, payload);
    DispatchesRakp3(c, host, sessions, world, Packet(PAYLOAD_RAKP_3, 0, 0, payload), draws);
  }

  lemma RakpNeverPanics<M(!new)>(c: Crypto, host: Host<M>, sessions: Sessions, users: Table, payload: Bytes)
    ensures !Rakp1(c, host, sessions, users, payload).0.Panicked?
    ensures !Rakp3(c, host, sessions, users, payload).0.Panicked?
  {
  }

  lemma Rakp1Datagram<M(!new)>(c: Crypto, host: Host<M>, st: ServerState<M>, payload: Bytes, draws: Draws)
    requires !st.stopped
    ensures var (st', reply) := ServeOne(c, host, st, Input(Datagram(PAYLOAD_RAKP_1, payload), draws));
      var (inner, sessions') := Rakp1(c, host, st.sessions, st.world.users, payload);
      st' == ServerState(sessions', st.world, false) && Inner(reply) == inner
  {
    ServePacket(c, host, st, PAYLOAD_RAKP_1, payload, draws);
    Rakp1Dispatch(c, host, st.sessions, st.world, payload, draws);
    RakpNeverPanics(c, host, st.sessions, st.world.users, payload);
  }

  lemma Rakp3Datagram<M(!new)>(c: Crypto, host: Host<M>, st: ServerState<M>, payload: Bytes, draws: Draws)
    requires !st.stopped
    ensures var (st', reply) := ServeOne(c, host, st, Input(Datagram(PAYLOAD_RAKP_3, payload), draws));
      var (inner, sessions') := Rakp3(c, host, st.sessions, st.world.users, payload);
      st' == ServerState(sessions', st.world, false) && Inner(reply) == inner
  {
    ServePacket(c, host, st, PAYLOAD_RAKP_3, payload, draws);
    Rakp3Dispatch(c, host, st.sessions, st.world, payload, draws);
    RakpNeverPanics(c, host, st.sessions, st.world.users, payload);
  }

  lemma Rakp1KeepsInvariant<M(!new)>(c: Crypto, host: Host<M>, sessions: Sessions, users: Table, payload: Bytes)
    requires Invariant(c, sessions)
    ensures Invariant(c, Rakp1(c, host, sessions, users, payload).1)
  {
    Rakp1Effect(c, host, sessions, users, payload);
  }

  /** Both sides hold the same session keys. */
  ghost predicate KeysAgree(c: Crypto, s: SessionView, k: Console, ch: Challenge)
    requires k.Valid()
  {
    && s.authenticated
    && s.sik == ConsoleSik(c, k, ch)
    && s.k1 == Hmac(c, ConsoleSik(c, k, ch), Constant(0x01))
    && s.k2 == Hmac(c, ConsoleSik(c, k, ch), Constant(0x02))
  }

  /** The server after RAKP Message 1 was answered with status 0. */
  ghost predicate Challenged<M(!new)>(c: Crypto, host: Host<M>, st: ServerState<M>, users: Table, id: uint32, k: Console, ch: Challenge)
    requires k.Valid()
  {
    && !st.stopped && Invariant(c, st.sessions)
    && id in st.sessions && Agrees(st.sessions[id], k, id, ch)
    && st.world.users == users
    && Rakp1Password(host, users, k.name).Some?
    && (Rakp1Password(host, users, k.name) == Some(k.password) ==> ch.code == ExpectedRakp2Code(c, k, id, ch))
  }

  lemma ChallengeStep<M(!new)>(
    c: Crypto, host: Host<M>, st: ServerState<M>, tag: byte, id: uint32, k: Console, draws: Draws,
    st1: ServerState<M>, rakp2: Reply)
    requires k.Valid() && !st.stopped && Invariant(c, st.sessions)
    requires id in st.sessions && st.sessions[id].remoteId == k.remoteId
    requires (st1, rakp2) == ServeOne(c, host, st, Input(Datagram(PAYLOAD_RAKP_1, Rakp1Request(tag, id, k)), draws))
    requires StatusIs(Inner(rakp2), STATUS_SUCCESS)
    ensures |Payload(Inner(rakp2).data)| == 60
    ensures Challenged(c, host, st1, st.world.users, id, k, ReadChallenge(Inner(rakp2).data))
  {
    var payload := Rakp1Request(tag, id, k);
    Rakp1Datagram(c, host, st, payload, draws);
    assert SessionOk(c, id, st.sessions[id]);
    Rakp1Agreement(c, host, st.sessions, st.world.users, tag, id, k);
    Rakp1KeepsInvariant(c, host, st.sessions, st.world.users, payload);
  }

  lemma ResponseStep<M(!new)>(
    c: Crypto, host: Host<M>, st2: ServerState<M>, users: Table, tag: byte, id: uint32, k: Console, ch: Challenge,
    code: Bytes, draws: Draws, st3: ServerState<M>, rakp4: Reply)
    requires k.Valid() && Challenged(c, host, st2, users, id, k, ch) && |code| == DIGEST_SIZE
    requires (st3, rakp4) == ServeOne(c, host, st2, Input(Datagram(PAYLOAD_RAKP_3, Rakp3Request(tag, id, code)), draws))
    ensures var password := Rakp1Password(host, users, k.name).value;
      var expected := ConsoleRakp3Code(c, k.(password := password), ch);
      && (StatusIs(Inner(rakp4), STATUS_SUCCESS) <==> code == expected)
      && (code != expected ==> StatusIs(Inner(rakp4), STATUS_INVALID_INTEGRITY_CHECK) && st3.sessions == st2.sessions)
      && (code == expected && k.password == password ==> id in st3.sessions && KeysAgree(c, st3.sessions[id], k, ch))
  {
    var payload := Rakp3Request(tag, id, code);
    Rakp3Datagram(c, host, st2, payload, draws);
    SamePassword(host, users, k.name);
    Rakp3Agreement(c, host, st2.sessions, users, tag, id, k, ch, code);
    Rakp3Effect(c, host, st2.sessions, users, payload);
  }

  /** A console that is told status 0 in RAKP Message 2 and then, after any traffic with no other
      RAKP Message 1 for its session, no new grant of its id and the same users at the end, sends
      RAKP Message 3: accepted exactly with the code under
      the BMC's password, a refusal changes no session, and acceptance of a console that holds
      that password leaves both sides with the same keys. */
  lemma InterleavedHandshake<M(!new)>(
    c: Crypto, host: Host<M>, st: ServerState<M>, tag: byte, id: uint32, k: Console, draws: Draws,
    st1: ServerState<M>, rakp2: Reply, between: seq<Input>, st2: ServerState<M>,
    code: Bytes, st3: ServerState<M>, rakp4: Reply)
    requires k.Valid() && !st.stopped && Invariant(c, st.sessions)
    requires id in st.sessions && st.sessions[id].remoteId == k.remoteId
    requires (st1, rakp2) == ServeOne(c, host, st, Input(Datagram(PAYLOAD_RAKP_1, Rakp1Request(tag, id, k)), draws))
    requires StatusIs(Inner(rakp2), STATUS_SUCCESS)
    requires var replies := Serve(c, host, st1, between).1;
      forall i :: 0 <= i < |between| ==> LeavesExchange(id, between[i], replies[i])
    requires st2 == Serve(c, host, st1, between).0 && !st2.stopped && st2.world.users == st.world.users
    requires |code| == DIGEST_SIZE
    requires (st3, rakp4) == ServeOne(c, host, st2, Input(Datagram(PAYLOAD_RAKP_3, Rakp3Request(tag, id, code)), draws))
    ensures |Payload(Inner(rakp2).data)| == 60 && Rakp1Password(host, st.world.users, k.name).Some?
    ensures var ch := ReadChallenge(Inner(rakp2).data);
      var password := Rakp1Password(host, st.world.users, k.name).value;
      var expected := ConsoleRakp3Code(c, k.(password := password), ch);
      && (StatusIs(Inner(rakp4), STATUS_SUCCESS) <==> code == expected)
      && (code != expected ==> StatusIs(Inner(rakp4), STATUS_INVALID_INTEGRITY_CHECK) && st3.sessions == st2.sessions)
      && (k.password == password ==> ch.code == ExpectedRakp2Code(c, k, id, ch))
      && (code == expected && k.password == password ==> id in st3.sessions && KeysAgree(c, st3.sessions[id], k, ch))
  {
    ChallengeStep(c, host, st, tag, id, k, draws, st1, rakp2);
    TrafficKeepsExchange(c, host, st1, between, id);
    ResponseStep(c, host, st2, st.world.users, tag, id, k, ReadChallenge(Inner(rakp2).data), code, draws, st3, rakp4);
  }
}
