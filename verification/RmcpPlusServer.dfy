/**
 The session objects of internal/ipmi/session.go and the handlers of
 internal/ipmi/rmcp_plus.go that update them in place, each proved against RmcpPlus.
 */
module RmcpPlusServer {
  import opened Bytes
  import opened Wrappers
  import opened Crypto
  import opened Accounts
  import opened RmcpPlus
  import AesCbc
  import Msg = IpmiMessage

  class Session {
    var remoteConsoleSessionId: uint32
    const managedSystemSessionId: uint32
    var remoteConsoleRandom: Block
    const managedSystemRandom: Block
    var requestedPrivilege: byte
    const managedSystemGuid: Block
    var userName: Bytes
    var userNameLength: byte
    var integrityKeySik: Bytes
    var integrityKey: Bytes
    var confidentialityKey: Bytes
    var authenticated: bool
    var authAlgorithm: byte
    var integrityAlgorithm: byte
    var confAlgorithm: byte
    var outboundSequence: uint32

    constructor (remoteId: uint32, id: uint32, random: Block, guid: Block)
      ensures View() == NewSession(remoteId, id, random, guid)
      ensures managedSystemSessionId == id
    {
      remoteConsoleSessionId, managedSystemSessionId := remoteId, id;
      managedSystemRandom, managedSystemGuid := random, guid;
      remoteConsoleRandom := ZERO_BLOCK;
      requestedPrivilege, userNameLength, outboundSequence := 0, 0, 0;
      userName, integrityKeySik, integrityKey, confidentialityKey := [], [], [], [];
      authenticated := false;
      authAlgorithm, integrityAlgorithm, confAlgorithm := 0, 0, 0;
    }

    function View(): SessionView
      reads this
    {
      SessionView(
        remoteConsoleSessionId, managedSystemSessionId, remoteConsoleRandom, managedSystemRandom,
        requestedPrivilege, managedSystemGuid, userName, userNameLength,
        integrityKeySik, integrityKey, confidentialityKey, authenticated,
        authAlgorithm, integrityAlgorithm, confAlgorithm, outboundSequence)
    }

    method UseSuite3()
      modifies this
      ensures View() == old(View()).(
        authAlgorithm := AUTH_HMAC_SHA1, integrityAlgorithm := INTEGRITY_HMAC_SHA1_96, confAlgorithm := CONF_AES_CBC_128)
    {
      authAlgorithm := AUTH_HMAC_SHA1;
      integrityAlgorithm := INTEGRITY_HMAC_SHA1_96;
      confAlgorithm := CONF_AES_CBC_128;
    }

    method StoreRakp1(random: Block, role: byte, name: Bytes)
      requires |name| < 0x100
      modifies this
      ensures View() == WithRakp1(old(View()), random, role, name)
    {
      remoteConsoleRandom := random;
      requestedPrivilege := role;
      userNameLength := |name|;
      userName := name;
    }

    method DeriveKeys(c: Crypto, password: Bytes)
      modifies this
      ensures View() == WithKeys(c, old(View()), password)
    {
      integrityKeySik := Hmac(c, password, SikInput(View()));
      integrityKey := Hmac(c, integrityKeySik, Constant(0x01));
      confidentialityKey := Hmac(c, integrityKeySik, Constant(0x02));
      authenticated := true;
    }

    method NextOutbound()
      modifies this
      ensures View() == old(View()).(outbound := Next(old(View()).outbound))
    {
      outboundSequence := (outboundSequence + 1) % 0x1_0000_0000;
    }
  }

  class SessionManager {
    var sessions: map<uint32, Session>

    /** Every session sits under its own id, so no object sits under two. */
    ghost predicate Valid()
      reads this
    {
      forall id :: id in sessions ==> sessions[id].managedSystemSessionId == id
    }

    ghost function Views(): Sessions
      reads this, sessions.Values
    {
      map id | id in sessions :: sessions[id].View()
    }

    constructor ()
      ensures Valid() && sessions == map[]
    {
      sessions := map[];
    }

    /** The random source is read for the id, the random number and the GUID, in that order. */
    method CreateSession(remoteId: uint32, draws: Draws) returns (r: Option<Session>)
      requires Valid()
      modifies this
      ensures Valid()
      ensures r.None? <==> draws.sessionId.None? || draws.random.None? || draws.guid.None?
      ensures r.None? ==> sessions == old(sessions) && Views() == old(Views())
      ensures r.Some? ==>
        && fresh(r.value)
        && r.value.View() == NewSession(remoteId, draws.sessionId.value, draws.random.value, draws.guid.value)
        && sessions == old(sessions)[draws.sessionId.value := r.value]
    {
      if draws.sessionId.None? || draws.random.None? || draws.guid.None? {
        return None;
      }
      var session := new Session(remoteId, draws.sessionId.value, draws.random.value, draws.guid.value);
      sessions := sessions[draws.sessionId.value := session];
      return Some(session);
    }

    method GetSession(id: uint32) returns (r: Option<Session>)
      ensures r == if id in sessions then Some(sessions[id]) else None
    {
      if id in sessions {
        return Some(sessions[id]);
      }
      return None;
    }

    /** After one session object has changed, only its entry differs. */
    twostate lemma EntryChanged(id: uint32)
      requires Valid() && sessions == old(sessions) && id in sessions
      requires forall s: Session {:trigger s.View()} :: s in sessions.Values && s != sessions[id] ==> unchanged(s)
      ensures Views() == old(Views())[id := sessions[id].View()]
    {
      forall k | k in sessions && k != id ensures sessions[k].View() == old(sessions[k].View()) {
        assert sessions[k] in sessions.Values;
        assert sessions[k].managedSystemSessionId != sessions[id].managedSystemSessionId;
      }
    }

    method RemoveSession(id: uint32)
      requires Valid()
      modifies this
      ensures Valid() && sessions == old(sessions) - {id}
    {
      sessions := sessions - {id};
    }
  }

  method HandleOpenSession(payload: Bytes, mgr: SessionManager, draws: Draws) returns (reply: Reply)
    requires mgr.Valid()
    modifies mgr
    ensures mgr.Valid()
    ensures (reply, mgr.Views()) == OpenSession(old(mgr.Views()), payload, draws)
    ensures fresh(mgr.sessions.Values - old(mgr.sessions.Values))
  {
    if |payload| < 32 {
      return Failed;
    }
    var tag, remoteId := payload[0], FromLe32(payload[4..8]);
    if payload[12] != AUTH_HMAC_SHA1 {
      return Sent(OpenSessionError(tag, remoteId, STATUS_INVALID_AUTH_ALGORITHM));
    }
    if payload[20] != INTEGRITY_HMAC_SHA1_96 {
      return Sent(OpenSessionError(tag, remoteId, STATUS_INVALID_INTEGRITY_ALGORITHM));
    }
    if payload[28] != CONF_AES_CBC_128 {
      return Sent(OpenSessionError(tag, remoteId, STATUS_INVALID_CONF_ALGORITHM));
    }
    ghost var before := mgr.Views();
    var created := mgr.CreateSession(remoteId, draws);
    if created.None? {
      return Failed;
    }
    var session := created.value;
    session.UseSuite3();
    assert mgr.Views() == before[draws.sessionId.value := session.View()];
    return Sent(OpenSessionAccepted(tag, session.View()));
  }

  /** The table lookups of both RAKP handlers: LookupUserByName, then GetUserPassword. */
  method LookupPassword(users: Table, name: Bytes) returns (password: Bytes)
    ensures password == StoredPassword(users, name)
  {
    var id := Lookup(users, name);
    password := [];
    if id != 0 {
      password := users[id].password;
    }
  }

  method HandleRAKPMessage1<M(!new)>(c: Crypto, host: Host<M>, payload: Bytes, mgr: SessionManager, users: Table)
    returns (reply: Reply)
    requires mgr.Valid()
    modifies mgr.sessions.Values
    ensures mgr.Valid()
    ensures (reply, mgr.Views()) == Rakp1(c, host, old(mgr.Views()), users, payload)
  {
    if |payload| < 28 || |payload| < 28 + payload[27] as int {
      return Failed;
    }
    var tag, id, nameLength := payload[0], FromLe32(payload[4..8]), payload[27] as int;
    var found := mgr.GetSession(id);
    if found.None? {
      return Failed;
    }
    var session := found.value;
    var name := payload[28..28 + nameLength];
    session.StoreRakp1(payload[8..24], payload[24], name);
    mgr.EntryChanged(id);

    var authPass := LookupPassword(users, session.userName);
    if authPass == [] {
      if session.userName != host.user {
        reply := Sent(Rakp2Error(tag, session.View()));
        return;
      }
      authPass := host.pass;
    }
    reply := Sent(Rakp2(c, tag, session.View(), authPass));
  }

  method HandleRAKPMessage3<M(!new)>(c: Crypto, host: Host<M>, payload: Bytes, mgr: SessionManager, users: Table)
    returns (reply: Reply)
    requires mgr.Valid()
    modifies mgr.sessions.Values
    ensures mgr.Valid()
    ensures (reply, mgr.Views()) == Rakp3(c, host, old(mgr.Views()), users, payload)
  {
    if |payload| < 28 {
      return Failed;
    }
    var tag, id := payload[0], FromLe32(payload[4..8]);
    var found := mgr.GetSession(id);
    if found.None? {
      return Failed;
    }
    var session := found.value;
    var stored := LookupPassword(users, session.userName);
    var authPass := if stored != [] then stored else host.pass;

    var expected := Hmac(c, authPass, Rakp3Input(session.View()));
    if payload[8..28] != expected {
      return Sent(Rakp4Error(tag, session.View()));
    }
    session.DeriveKeys(c, authPass);
    mgr.EntryChanged(id);
    return Sent(Rakp4(c, tag, session.View()));
  }

  /** The trailer of handleEncryptedIPMI, appended byte by byte. */
  method SealPacket(c: Crypto, k1: Bytes, packet: Bytes) returns (r: Bytes)
    ensures r == Seal(c, k1, packet)
  {
    r := packet;
    var padNeeded := IntegrityPad(|packet|);
    for i := 0 to padNeeded
      invariant r == packet + Repeat(i, 0xFF)
    {
      assert Repeat(i, 0xFF) + [0xFF] == Repeat(i + 1, 0xFF);
      r := r + [0xFF];
    }
    r := r + [padNeeded];
    r := r + [0x07];
    assert r == packet + Repeat(padNeeded, 0xFF) + [padNeeded as byte, 0x07];
    var mac := Hmac(c, k1, r);
    r := r + mac[..12];
  }

  method HandleEncryptedIPMI<M(!new)>(c: Crypto, host: Host<M>, data: Bytes, mgr: SessionManager, world: World<M>, draws: Draws)
    returns (reply: Reply, world': World<M>)
    requires mgr.Valid() && |data| >= HEADER_SIZE
    modifies mgr.sessions.Values
    ensures mgr.Valid()
    ensures (reply, mgr.Views(), world') == InSession(c, host, old(mgr.Views()), world, data, draws)
  {
    var h := ParseHeader(data);
    var found := mgr.GetSession(h.sessionId);
    if found.None? {
      return Failed, world;
    }
    var session := found.value;
    var plain := Opened(c, session.View(), data);
    if plain.Err? {
      return plain.error, world;
    }
    var parsed := Msg.ParseMessage(plain.value);
    if parsed.Err? {
      return Failed, world;
    }
    var (resp, after) := Answer(host, world, parsed.value);
    world' := after;
    var payload := resp;
    if IsEncrypted(h.payloadType) {
      var sealed := AesCbc.Encrypt(c, session.confidentialityKey, resp, draws.iv);
      if sealed.Err? {
        return Failed, world';
      }
      payload := sealed.value;
    }
    session.NextOutbound();
    mgr.EntryChanged(h.sessionId);
    var packet := Packet(h.payloadType, session.remoteConsoleSessionId, session.outboundSequence, payload);
    if IsAuthenticated(h.payloadType) {
      packet := SealPacket(c, session.integrityKey, packet);
    }
    reply := Sent(packet);
  }

  method HandleRMCPPlusMessage<M(!new)>(c: Crypto, host: Host<M>, data: Bytes, mgr: SessionManager, world: World<M>, draws: Draws)
    returns (reply: Reply, world': World<M>)
    requires mgr.Valid()
    modifies mgr, mgr.sessions.Values
    ensures mgr.Valid()
    ensures Step(reply, mgr.Views(), world') == HandleMessage(c, host, old(mgr.Views()), world, data, draws)
    ensures fresh(mgr.sessions.Values - old(mgr.sessions.Values))
  {
    world' := world;
    if |data| < HEADER_SIZE {
      return Failed, world;
    }
    var h := ParseHeader(data);
    var kind := h.payloadType % 0x40;
    if kind == PAYLOAD_OPEN_SESSION_REQUEST {
      reply := HandleOpenSession(data[HEADER_SIZE..], mgr, draws);
    } else if kind == PAYLOAD_RAKP_1 {
      reply := HandleRAKPMessage1(c, host, data[HEADER_SIZE..], mgr, world.users);
    } else if kind == PAYLOAD_RAKP_3 {
      reply := HandleRAKPMessage3(c, host, data[HEADER_SIZE..], mgr, world.users);
    } else if kind == PAYLOAD_IPMI {
      if h.sessionId == 0 {
        var (r, after) := PreSession(host, world, data);
        reply, world' := r, after;
      } else {
        reply, world' := HandleEncryptedIPMI(c, host, data, mgr, world, draws);
      }
    } else {
      reply := Failed;
    }
  }
}
