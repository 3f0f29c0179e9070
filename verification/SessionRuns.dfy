/**
 What every run of the IPMI server keeps: the shape of each session, one session per
 datagram, and gap-free outbound sequence numbers.
 */
module SessionRuns {
  import opened Bytes
  import opened Wrappers
  import opened Crypto
  import opened Accounts
  import opened RmcpPlus
  import opened IpmiServer
  import AesCbc
  import Msg = IpmiMessage

  // ----- the session invariant -----

  /** Keys are absent before authentication and derived from the SIK after it. They are not tied
      to the current random numbers or user name, which a repeated RAKP Message 1 overwrites. */
  ghost predicate KeysMatch(c: Crypto, s: SessionView) {
    if s.authenticated then
      && |s.sik| == DIGEST_SIZE
      && s.k1 == Hmac(c, s.sik, Constant(0x01))
      && s.k2 == Hmac(c, s.sik, Constant(0x02))
    else
      s.sik == [] && s.k1 == [] && s.k2 == []
  }

  ghost predicate SessionOk(c: Crypto, id: uint32, s: SessionView) {
    && s.id == id
    && |s.userName| == s.userNameLength as int
    && s.authAlgorithm == AUTH_HMAC_SHA1
    && s.integrityAlgorithm == INTEGRITY_HMAC_SHA1_96
    && s.confAlgorithm == CONF_AES_CBC_128
    && KeysMatch(c, s)
  }

  ghost predicate Invariant(c: Crypto, sessions: Sessions) {
    forall id :: id in sessions ==> SessionOk(c, id, sessions[id])
  }

  /** The RMCP+ packet in a datagram, when the dispatcher takes it for one. */
  function RmcpPlusPacket(data: Bytes): Option<Bytes> {
    match Msg.ParseRmcp(data)
    case Err(_) => None
    case Ok((cls, payload)) =>
      if cls == Msg.RMCP_CLASS_IPMI && |payload| >= HEADER_SIZE && payload[0] == Msg.AUTH_TYPE_RMCP_PLUS then Some(payload)
      else None
  }

  /** The one session a packet can create or change. */
  function Addressed(packet: Bytes, draws: Draws): Option<uint32>
    requires |packet| >= HEADER_SIZE
  {
    var h := ParseHeader(packet);
    var kind, payload := h.payloadType % 0x40, packet[HEADER_SIZE..];
    if kind == PAYLOAD_OPEN_SESSION_REQUEST then draws.sessionId
    else if (kind == PAYLOAD_RAKP_1 || kind == PAYLOAD_RAKP_3) && |payload| >= 8 then Some(FromLe32(payload[4..8]))
    else if kind == PAYLOAD_IPMI && h.sessionId != 0 then Some(h.sessionId)
    else None
  }

  ghost predicate OnlyChanges(m: Sessions, m': Sessions, id: Option<uint32>) {
    && m.Keys <= m'.Keys
    && forall k :: Some(k) != id ==> (k in m <==> k in m') && (k in m ==> m'[k] == m[k])
  }

  // ----- what each handler does to the map -----

  lemma OpenSessionEffect(sessions: Sessions, payload: Bytes, draws: Draws)
    ensures var (reply, sessions') := OpenSession(sessions, payload, draws);
      || (sessions' == sessions && (reply.Sent? ==> |reply.data| == 20))
      || (&& |payload| >= 32 && draws.sessionId.Some? && draws.random.Some? && draws.guid.Some?
          && var s := Negotiated(NewSession(FromLe32(payload[4..8]), draws.sessionId.value, draws.random.value, draws.guid.value));
          && reply == Sent(OpenSessionAccepted(payload[0], s))
          && sessions' == sessions[s.id := s])
  {
  }

  lemma Rakp1Effect<M(!new)>(c: Crypto, host: Host<M>, sessions: Sessions, users: Table, payload: Bytes)
    ensures var (reply, sessions') := Rakp1(c, host, sessions, users, payload);
      || sessions' == sessions
      || (&& |payload| >= 28 && |payload| >= 28 + payload[27] as int
          && var id := FromLe32(payload[4..8]);
          && id in sessions
          && sessions' == sessions[id := WithRakp1(sessions[id], payload[8..24], payload[24], payload[28..28 + payload[27] as int])])
  {
  }

  lemma Rakp3Effect<M(!new)>(c: Crypto, host: Host<M>, sessions: Sessions, users: Table, payload: Bytes)
    ensures var (reply, sessions') := Rakp3(c, host, sessions, users, payload);
      || sessions' == sessions
      || (&& |payload| >= 28
          && var id := FromLe32(payload[4..8]);
          && id in sessions
          && sessions' == sessions[id := WithKeys(c, sessions[id], Rakp3Password(host, users, sessions[id].userName))])
  {
  }

  lemma InSessionEffect<M(!new)>(c: Crypto, host: Host<M>, sessions: Sessions, world: World<M>, data: Bytes, draws: Draws)
    requires |data| >= HEADER_SIZE
    ensures var (reply, sessions', _) := InSession(c, host, sessions, world, data, draws);
      var id := ParseHeader(data).sessionId;
      if reply.Sent? then
        id in sessions && sessions' == sessions[id := sessions[id].(outbound := Next(sessions[id].outbound))]
      else
        sessions' == sessions
  {
  }

  lemma PutKeeps(c: Crypto, sessions: Sessions, id: uint32, s: SessionView)
    requires Invariant(c, sessions) && SessionOk(c, id, s)
    ensures Invariant(c, sessions[id := s]) && OnlyChanges(sessions, sessions[id := s], Some(id))
  {
  }

  lemma PacketStep<M(!new)>(c: Crypto, host: Host<M>, sessions: Sessions, world: World<M>, packet: Bytes, draws: Draws)
    requires Invariant(c, sessions) && |packet| >= HEADER_SIZE
    ensures var step := HandleMessage(c, host, sessions, world, packet, draws);
      && Invariant(c, step.sessions)
      && OnlyChanges(sessions, step.sessions, Addressed(packet, draws))
  {
    var h := ParseHeader(packet);
    var kind, payload := h.payloadType % 0x40, packet[HEADER_SIZE..];
    var sessions' := HandleMessage(c, host, sessions, world, packet, draws).sessions;
    if sessions' == sessions {
    } else if kind == PAYLOAD_OPEN_SESSION_REQUEST {
      OpenSessionEffect(sessions, payload, draws);
      var s := Negotiated(NewSession(FromLe32(payload[4..8]), draws.sessionId.value, draws.random.value, draws.guid.value));
      PutKeeps(c, sessions, s.id, s);
    } else if kind == PAYLOAD_RAKP_1 {
      Rakp1Effect(c, host, sessions, world.users, payload);
      var id := FromLe32(payload[4..8]);
      PutKeeps(c, sessions, id, WithRakp1(sessions[id], payload[8..24], payload[24], payload[28..28 + payload[27] as int]));
    } else if kind == PAYLOAD_RAKP_3 {
      Rakp3Effect(c, host, sessions, world.users, payload);
      var id := FromLe32(payload[4..8]);
      PutKeeps(c, sessions, id, WithKeys(c, sessions[id], Rakp3Password(host, world.users, sessions[id].userName)));
    } else {
      InSessionEffect(c, host, sessions, world, packet, draws);
      var id := h.sessionId;
      PutKeeps(c, sessions, id, sessions[id].(outbound := Next(sessions[id].outbound)));
    }
  }

  /** One datagram keeps the invariant and creates or changes at most the session it addresses. */
  lemma DatagramKeepsInvariant<M(!new)>(c: Crypto, host: Host<M>, sessions: Sessions, world: World<M>, data: Bytes, draws: Draws)
    requires Invariant(c, sessions)
    ensures var step := HandleDatagram(c, host, sessions, world, data, draws);
      && Invariant(c, step.sessions)
      && OnlyChanges(sessions, step.sessions,
           match RmcpPlusPacket(data) case None => None case Some(p) => Addressed(p, draws))
  {
    match RmcpPlusPacket(data)
    case None =>
    case Some(packet) => PacketStep(c, host, sessions, world, packet, draws);
  }

  /** Over any run from an empty server, whatever the datagrams, commands and random bytes. */
  lemma {:induction false} RunKeepsInvariant<M(!new)>(c: Crypto, host: Host<M>, world: World<M>, inputs: seq<Input>)
    ensures Invariant(c, Serve(c, host, ServerState(map[], world, false), inputs).0.sessions)
    decreases |inputs|
  {
    if inputs != [] {
      var n := |inputs| - 1;
      RunKeepsInvariant(c, host, world, inputs[..n]);
      var st := Serve(c, host, ServerState(map[], world, false), inputs[..n]).0;
      DatagramKeepsInvariant(c, host, st.sessions, st.world, inputs[n].data, inputs[n].draws);
    }
  }

  // ----- when the server panics -----

  /** An encrypted IPMI packet for a session that has no keys yet, long enough to get as far as
      decryption. */
  predicate NeedsMissingKey(sessions: Sessions, packet: Bytes)
    requires |packet| >= HEADER_SIZE
  {
    var h := ParseHeader(packet);
    var end := HEADER_SIZE + h.length as int;
    && h.payloadType % 0x40 == PAYLOAD_IPMI && IsEncrypted(h.payloadType)
    && h.sessionId != 0 && h.sessionId in sessions && !sessions[h.sessionId].authenticated
    && h.length as int >= BLOCK_SIZE
    && |packet| >= end + (if IsAuthenticated(h.payloadType) then 14 else 0)
  }

  lemma InSessionPanicsIff<M(!new)>(c: Crypto, host: Host<M>, sessions: Sessions, world: World<M>, packet: Bytes, draws: Draws)
    requires Invariant(c, sessions) && |packet| >= HEADER_SIZE
    requires var h := ParseHeader(packet); h.payloadType % 0x40 == PAYLOAD_IPMI && h.sessionId != 0
    ensures InSession(c, host, sessions, world, packet, draws).0.Panicked? <==> NeedsMissingKey(sessions, packet)
  {
    var id := ParseHeader(packet).sessionId;
    if id in sessions {
      assert SessionOk(c, id, sessions[id]);
      assert sessions[id].authenticated <==> |sessions[id].k2| >= BLOCK_SIZE;
    }
  }

  lemma PacketPanicsIff<M(!new)>(c: Crypto, host: Host<M>, sessions: Sessions, world: World<M>, packet: Bytes, draws: Draws)
    requires Invariant(c, sessions) && |packet| >= HEADER_SIZE
    ensures HandleMessage(c, host, sessions, world, packet, draws).reply.Panicked? <==> NeedsMissingKey(sessions, packet)
  {
    var h := ParseHeader(packet);
    if h.payloadType % 0x40 == PAYLOAD_IPMI && h.sessionId != 0 {
      InSessionPanicsIff(c, host, sessions, world, packet, draws);
    }
  }

  predicate Panics(sessions: Sessions, data: Bytes) {
    var p := RmcpPlusPacket(data);
    p.Some? && NeedsMissingKey(sessions, p.value)
  }

  /** One datagram panics exactly when it carries such a packet. */
  lemma DatagramPanicsIff<M(!new)>(c: Crypto, host: Host<M>, sessions: Sessions, world: World<M>, data: Bytes, draws: Draws)
    requires Invariant(c, sessions)
    ensures HandleDatagram(c, host, sessions, world, data, draws).reply.Panicked? <==> Panics(sessions, data)
  {
    match RmcpPlusPacket(data)
    case None =>
    case Some(packet) => PacketPanicsIff(c, host, sessions, world, packet, draws);
  }

  ghost predicate PanicsAt<M(!new)>(c: Crypto, host: Host<M>, world: World<M>, inputs: seq<Input>, i: nat)
    requires i < |inputs|
  {
    Panics(Serve(c, host, ServerState(map[], world, false), inputs[..i]).0.sessions, inputs[i].data)
  }

  lemma TurnStopsIff<M(!new)>(c: Crypto, host: Host<M>, st: ServerState<M>, input: Input)
    requires Invariant(c, st.sessions)
    ensures ServeOne(c, host, st, input).0.stopped <==> st.stopped || Panics(st.sessions, input.data)
  {
    DatagramPanicsIff(c, host, st.sessions, st.world, input.data, input.draws);
  }

  lemma PanicsAtPrefix<M(!new)>(c: Crypto, host: Host<M>, world: World<M>, inputs: seq<Input>, n: nat, i: nat)
    requires i < n <= |inputs|
    ensures PanicsAt(c, host, world, inputs[..n], i) <==> PanicsAt(c, host, world, inputs, i)
  {
    assert inputs[..n][..i] == inputs[..i];
  }

  ghost predicate PanicsSomewhere<M(!new)>(c: Crypto, host: Host<M>, world: World<M>, inputs: seq<Input>) {
    exists i: nat :: i < |inputs| && PanicsAt(c, host, world, inputs, i)
  }

  lemma LastOrEarlier<M(!new)>(c: Crypto, host: Host<M>, world: World<M>, inputs: seq<Input>)
    requires inputs != []
    ensures var n := |inputs| - 1;
      PanicsSomewhere(c, host, world, inputs) <==> PanicsSomewhere(c, host, world, inputs[..n]) || PanicsAt(c, host, world, inputs, n)
  {
    var n := |inputs| - 1;
    if i: nat :| i < |inputs| && PanicsAt(c, host, world, inputs, i) {
      if i < n {
        PanicsAtPrefix(c, host, world, inputs, n, i);
      }
    }
    if i: nat :| i < n && PanicsAt(c, host, world, inputs[..n], i) {
      PanicsAtPrefix(c, host, world, inputs, n, i);
    }
  }

  predicate Stops<M(!new)>(c: Crypto, host: Host<M>, world: World<M>, inputs: seq<Input>) {
    Serve(c, host, ServerState(map[], world, false), inputs).0.stopped
  }

  lemma StopsAtLast<M(!new)>(c: Crypto, host: Host<M>, world: World<M>, inputs: seq<Input>)
    requires inputs != []
    ensures var n := |inputs| - 1;
      Stops(c, host, world, inputs) <==> Stops(c, host, world, inputs[..n]) || PanicsAt(c, host, world, inputs, n)
  {
    var n := |inputs| - 1;
    RunKeepsInvariant(c, host, world, inputs[..n]);
    TurnStopsIff(c, host, Serve(c, host, ServerState(map[], world, false), inputs[..n]).0, inputs[n]);
  }

  /** The receive loop stops exactly when some datagram met the sessions in such a state. */
  lemma {:induction false} ServerStopsIff<M(!new)>(c: Crypto, host: Host<M>, world: World<M>, inputs: seq<Input>)
    ensures Stops(c, host, world, inputs) <==> PanicsSomewhere(c, host, world, inputs)
    decreases |inputs|
  {
    if inputs != [] {
      ServerStopsIff(c, host, world, inputs[..|inputs| - 1]);
      StopsAtLast(c, host, world, inputs);
      LastOrEarlier(c, host, world, inputs);
    }
  }

  // ----- outbound sequence numbers -----

  /** A reply inside session `id`, as seen on the wire. */
  predicate RepliesIn(id: uint32, data: Bytes, reply: Reply) {
    && id != 0
    && reply.Sent?
    && var p := RmcpPlusPacket(data);
    && p.Some?
    && var h := ParseHeader(p.value);
    && h.payloadType % 0x40 == PAYLOAD_IPMI && h.sessionId == id
  }

  /** An Open Session response that grants `id`, as seen on the wire. */
  predicate Opens(id: uint32, data: Bytes, reply: Reply) {
    && reply.Sent?
    && var p := RmcpPlusPacket(data);
    && p.Some?
    && ParseHeader(p.value).payloadType % 0x40 == PAYLOAD_OPEN_SESSION_REQUEST
    && GrantsOnWire(id, reply)
  }

  predicate GrantsOnWire(id: uint32, reply: Reply) {
    && reply.Sent?
    && |reply.data| >= 28
    && reply.data[17] == STATUS_SUCCESS
    && FromLe32(reply.data[24..28]) == id
  }

  /** How many replies session `id` has had since it was last granted. */
  function RepliesSinceOpen(id: uint32, inputs: seq<Input>, replies: seq<Reply>): nat
    requires |inputs| == |replies|
    decreases |inputs|
  {
    if inputs == [] then
      0
    else
      var n := |inputs| - 1;
      if Opens(id, inputs[n].data, replies[n]) then 0
      else RepliesSinceOpen(id, inputs[..n], replies[..n]) + (if RepliesIn(id, inputs[n].data, replies[n]) then 1 else 0)
  }

  lemma AcceptedReplyShowsId(tag: byte, s: SessionView)
    ensures var data := Msg.SerializeRmcp(Msg.RMCP_CLASS_IPMI, OpenSessionAccepted(tag, s));
      && |data| >= 28
      && data[17] == STATUS_SUCCESS
      && FromLe32(data[24..28]) == s.id
  {
    var data := Msg.SerializeRmcp(Msg.RMCP_CLASS_IPMI, OpenSessionAccepted(tag, s));
    var algorithms := AlgorithmPayload(0x00, s.authAlgorithm) + AlgorithmPayload(0x01, s.integrityAlgorithm)
      + AlgorithmPayload(0x02, s.confAlgorithm);
    var head := [Msg.RMCP_VERSION_1, 0x00, 0xFF, Msg.RMCP_CLASS_IPMI]
      + HeaderBytes(PAYLOAD_OPEN_SESSION_RESPONSE, 0, 0, 36)
      + [tag, STATUS_SUCCESS, 0x04, 0x00] + Le32(s.remoteId);
    assert data == head + Le32(s.id) + algorithms;
    SliceOf(head, Le32(s.id), algorithms);
    Le32RoundTrip(s.id);
  }

  /** How one packet moves a session's outbound number. */
  lemma OutboundPacketStep<M(!new)>(c: Crypto, host: Host<M>, sessions: Sessions, world: World<M>, packet: Bytes, draws: Draws, id: uint32)
    requires |packet| >= HEADER_SIZE
    requires id in HandleMessage(c, host, sessions, world, packet, draws).sessions
    ensures var step := HandleMessage(c, host, sessions, world, packet, draws);
      var h := ParseHeader(packet);
      var kind := h.payloadType % 0x40;
      var granted := kind == PAYLOAD_OPEN_SESSION_REQUEST && GrantsOnWire(id, Framed(step.reply));
      var replied := kind == PAYLOAD_IPMI && id != 0 && h.sessionId == id && step.reply.Sent?;
      if granted then
        step.sessions[id].outbound == 0
      else
        && id in sessions
        && step.sessions[id].outbound == if replied then Next(sessions[id].outbound) else sessions[id].outbound
  {
    var h := ParseHeader(packet);
    var kind, payload := h.payloadType % 0x40, packet[HEADER_SIZE..];
    if kind == PAYLOAD_OPEN_SESSION_REQUEST {
      OpenSessionEffect(sessions, payload, draws);
      var (reply, sessions') := OpenSession(sessions, payload, draws);
      if sessions' != sessions || (reply.Sent? && |reply.data| != 20) {
        var s := Negotiated(NewSession(FromLe32(payload[4..8]), draws.sessionId.value, draws.random.value, draws.guid.value));
        AcceptedReplyShowsId(payload[0], s);
      }
    } else if kind == PAYLOAD_RAKP_1 {
      Rakp1Effect(c, host, sessions, world.users, payload);
    } else if kind == PAYLOAD_RAKP_3 {
      Rakp3Effect(c, host, sessions, world.users, payload);
    } else if kind == PAYLOAD_IPMI && h.sessionId != 0 {
      InSessionEffect(c, host, sessions, world, packet, draws);
    }
  }

  /** How one datagram moves a session's outbound number. */
  lemma OutboundStep<M(!new)>(c: Crypto, host: Host<M>, sessions: Sessions, world: World<M>, data: Bytes, draws: Draws, id: uint32)
    requires id in HandleDatagram(c, host, sessions, world, data, draws).sessions
    ensures var step := HandleDatagram(c, host, sessions, world, data, draws);
      if Opens(id, data, step.reply) then
        step.sessions[id].outbound == 0
      else
        && id in sessions
        && step.sessions[id].outbound
           == if RepliesIn(id, data, step.reply) then Next(sessions[id].outbound) else sessions[id].outbound
  {
    if RmcpPlusPacket(data).Some? {
      OutboundPacketStep(c, host, sessions, world, RmcpPlusPacket(data).value, draws, id);
    }
  }

  /** The same, for one turn of the receive loop. */
  lemma OutboundTurn<M(!new)>(c: Crypto, host: Host<M>, st: ServerState<M>, input: Input, id: uint32)
    ensures var (st', reply) := ServeOne(c, host, st, input);
      id in st'.sessions ==>
        if Opens(id, input.data, reply) then
          st'.sessions[id].outbound == 0
        else
          && id in st.sessions
          && st'.sessions[id].outbound
             == if RepliesIn(id, input.data, reply) then Next(st.sessions[id].outbound) else st.sessions[id].outbound
  {
    if !st.stopped && id in ServeOne(c, host, st, input).0.sessions {
      OutboundStep(c, host, st.sessions, st.world, input.data, input.draws, id);
    }
  }

  lemma CountLast(id: uint32, inputs: seq<Input>, replies: seq<Reply>, reply: Reply)
    requires |inputs| == |replies| + 1
    ensures var n := |replies|;
      RepliesSinceOpen(id, inputs, replies + [reply])
      == if Opens(id, inputs[n].data, reply) then 0
         else RepliesSinceOpen(id, inputs[..n], replies) + (if RepliesIn(id, inputs[n].data, reply) then 1 else 0)
  {
    assert (replies + [reply])[..|replies|] == replies;
  }

  lemma NextCounts(outbound: uint32, n: nat)
    requires outbound as int == n % 0x1_0000_0000
    ensures Next(outbound) as int == (n + 1) % 0x1_0000_0000
  {
  }

  /** The session's counter stands at n modulo 2^32. */
  ghost predicate CounterAt(id: uint32, sessions: Sessions, n: nat) {
    id in sessions ==> sessions[id].outbound as int == n % 0x1_0000_0000
  }

  ghost predicate Counted(id: uint32, sessions: Sessions, inputs: seq<Input>, replies: seq<Reply>)
    requires |inputs| == |replies|
  {
    CounterAt(id, sessions, RepliesSinceOpen(id, inputs, replies))
  }

  /** What one turn does to the counter, and to the count. */
  lemma CountedNext(id: uint32, sessions: Sessions, sessions': Sessions, before: nat, opens: bool, replied: bool)
    requires CounterAt(id, sessions, before)
    requires id in sessions' ==>
      if opens then sessions'[id].outbound == 0
      else id in sessions && sessions'[id].outbound == if replied then Next(sessions[id].outbound) else sessions[id].outbound
    ensures CounterAt(id, sessions', if opens then 0 else before + (if replied then 1 else 0))
  {
    if id in sessions {
      NextCounts(sessions[id].outbound, before);
    }
  }

  lemma CountedTurn<M(!new)>(c: Crypto, host: Host<M>, st: ServerState<M>, inputs: seq<Input>, replies: seq<Reply>, id: uint32)
    requires |inputs| == |replies| + 1
    requires Counted(id, st.sessions, inputs[..|replies|], replies)
    ensures var (st', reply) := ServeOne(c, host, st, inputs[|replies|]);
      Counted(id, st'.sessions, inputs, replies + [reply])
  {
    var n := |replies|;
    var (st', reply) := ServeOne(c, host, st, inputs[n]);
    OutboundTurn(c, host, st, inputs[n], id);
    CountLast(id, inputs, replies, reply);
    CountedNext(id, st.sessions, st'.sessions, RepliesSinceOpen(id, inputs[..n], replies),
      Opens(id, inputs[n].data, reply), RepliesIn(id, inputs[n].data, reply));
  }

  /** In every reachable state the counter of a session is the number of replies it has had
      since it was granted, modulo 2^32. */
  lemma {:induction false} OutboundCountsReplies<M(!new)>(c: Crypto, host: Host<M>, world: World<M>, inputs: seq<Input>, id: uint32)
    ensures var (st, replies) := Serve(c, host, ServerState(map[], world, false), inputs);
      Counted(id, st.sessions, inputs, replies)
    decreases |inputs|
  {
    if inputs != [] {
      var n := |inputs| - 1;
      OutboundCountsReplies(c, host, world, inputs[..n], id);
      var (st, replies) := Serve(c, host, ServerState(map[], world, false), inputs[..n]);
      CountedTurn(c, host, st, inputs, replies, id);
    }
  }

  /** Serving `inputs` from a start with no sessions gave `replies` and left the server in `st`. */
  ghost predicate Served<M(!new)>(c: Crypto, host: Host<M>, inputs: seq<Input>, st: ServerState<M>, replies: seq<Reply>) {
    exists world :: Serve(c, host, ServerState(map[], world, false), inputs) == (st, replies)
  }

  lemma ServedCounts<M(!new)>(c: Crypto, host: Host<M>, inputs: seq<Input>, st: ServerState<M>, replies: seq<Reply>, id: uint32)
    requires Served(c, host, inputs, st, replies)
    ensures |inputs| == |replies| && Counted(id, st.sessions, inputs, replies)
  {
    var world :| Serve(c, host, ServerState(map[], world, false), inputs) == (st, replies);
    OutboundCountsReplies(c, host, world, inputs, id);
  }

  /** The sequence number and session id of a reply, as seen on the wire. */
  ghost predicate CarriesNumber(reply: Reply, sessions: Sessions, id: uint32, n: nat) {
    && reply.Sent? && |reply.data| >= 4 + HEADER_SIZE && id in sessions
    && ParseHeader(reply.data[4..]).sequence as int == n % 0x1_0000_0000
    && ParseHeader(reply.data[4..]).sessionId == sessions[id].remoteId
  }

  /** The n-th reply since a session was granted carries n modulo 2^32 on the wire; whatever
      failed in between used no number. */
  lemma ReplyCarriesItsNumber<M(!new)>(
    c: Crypto, host: Host<M>, inputs: seq<Input>, st: ServerState<M>, replies: seq<Reply>, next: Input, id: uint32)
    requires Served(c, host, inputs, st, replies) && RepliesIn(id, next.data, ServeOne(c, host, st, next).1)
    ensures |inputs| == |replies|
    ensures CarriesNumber(ServeOne(c, host, st, next).1, st.sessions, id, RepliesSinceOpen(id, inputs, replies) + 1)
  {
    ServedCounts(c, host, inputs, st, replies, id);
    NumberedReply(c, host, st, next, id, RepliesSinceOpen(id, inputs, replies));
  }

  lemma NumberedReply<M(!new)>(c: Crypto, host: Host<M>, st: ServerState<M>, next: Input, id: uint32, n: nat)
    requires RepliesIn(id, next.data, ServeOne(c, host, st, next).1)
    requires CounterAt(id, st.sessions, n)
    ensures CarriesNumber(ServeOne(c, host, st, next).1, st.sessions, id, n + 1)
  {
    ReplyHeader(c, host, st, next, id);
    NextCounts(st.sessions[id].outbound, n);
  }

  lemma ReplyHeader<M(!new)>(c: Crypto, host: Host<M>, st: ServerState<M>, next: Input, id: uint32)
    requires RepliesIn(id, next.data, ServeOne(c, host, st, next).1)
    ensures var reply := ServeOne(c, host, st, next).1;
      && id in st.sessions
      && |reply.data| >= 4 + HEADER_SIZE
      && ParseHeader(reply.data[4..]).sequence == Next(st.sessions[id].outbound)
      && ParseHeader(reply.data[4..]).sessionId == st.sessions[id].remoteId
  {
    var packet := RmcpPlusPacket(next.data).value;
    SealedReplyHeader(c, host, st.sessions, st.world, packet, next.draws);
    var (inner, _, _) := InSession(c, host, st.sessions, st.world, packet, next.draws);
    assert ServeOne(c, host, st, next).1 == Framed(inner);
    assert Msg.SerializeRmcp(Msg.RMCP_CLASS_IPMI, inner.data)[4..] == inner.data;
  }

  lemma SealedReplyHeader<M(!new)>(c: Crypto, host: Host<M>, sessions: Sessions, world: World<M>, packet: Bytes, draws: Draws)
    requires |packet| >= HEADER_SIZE
    requires var (reply, _, _) := InSession(c, host, sessions, world, packet, draws); reply.Sent?
    ensures var (reply, _, _) := InSession(c, host, sessions, world, packet, draws);
      var id := ParseHeader(packet).sessionId;
      && id in sessions
      && |reply.data| >= HEADER_SIZE
      && ParseHeader(reply.data).sequence == Next(sessions[id].outbound)
      && ParseHeader(reply.data).sessionId == sessions[id].remoteId
  {
    var h := ParseHeader(packet);
    var s := sessions[h.sessionId];
    var s' := s.(outbound := Next(s.outbound));
    var msg := Msg.ParseMessage(Opened(c, s, packet).value).value;
    var (resp, _) := Answer(host, world, msg);
    var payload := if IsEncrypted(h.payloadType) then AesCbc.Encrypt(c, s.k2, resp, draws.iv).value else resp;
    var plain := Packet(h.payloadType, s'.remoteId, s'.outbound, payload);
    var sealed := SealedReply(c, s', h.payloadType, payload);
    assert plain == HeaderBytes(h.payloadType, s'.remoteId, s'.outbound, |payload|) + payload;
    assert sealed == HeaderBytes(h.payloadType, s'.remoteId, s'.outbound, |payload|) + sealed[HEADER_SIZE..];
    PacketParses(h.payloadType, s'.remoteId, s'.outbound, |payload|, sealed[HEADER_SIZE..]);
  }
}
