/**
 The RAKP handshake end to end, on the wire (IPMI v2.0 sections 13.17 to 13.23, 13.31 and
 13.32): a remote console that follows the standard, its packets and what it computes from the
 replies, against the BMC of RmcpPlus.
 */
module Handshake {
  import opened Bytes
  import opened Wrappers
  import opened Crypto
  import opened Accounts
  import opened RmcpPlus

  // ----- the console -----

  datatype Console = Console(remoteId: uint32, random: Block, role: byte, name: Bytes, password: Bytes)
  {
    predicate Valid() {
      |name| < 0x100
    }
  }

  function OpenRequest(tag: byte, remoteId: uint32): (r: Bytes)
    ensures |r| == 32
  {
    [tag, 0, 0, 0] + Le32(remoteId)
    + AlgorithmPayload(0x00, AUTH_HMAC_SHA1)
    + AlgorithmPayload(0x01, INTEGRITY_HMAC_SHA1_96)
    + AlgorithmPayload(0x02, CONF_AES_CBC_128)
  }

  function Rakp1Request(tag: byte, id: uint32, k: Console): Bytes
    requires k.Valid()
  {
    [tag, 0, 0, 0] + Le32(id) + k.random + [k.role, 0, 0, |k.name|] + k.name
  }

  function Rakp3Request(tag: byte, id: uint32, code: Bytes): Bytes {
    [tag, 0, 0, 0] + Le32(id) + code
  }

  /** The payload of a reply, its status byte, and the fields the console takes from it. */
  function Payload(reply: Bytes): Bytes {
    if |reply| < HEADER_SIZE then [] else reply[HEADER_SIZE..]
  }

  predicate StatusIs(reply: Reply, status: byte) {
    reply.Sent? && |Payload(reply.data)| >= 8 && Payload(reply.data)[1] == status
  }

  function GrantedId(reply: Bytes): uint32
    requires |Payload(reply)| >= 12
  {
    FromLe32(Payload(reply)[8..12])
  }

  /** RAKP Message 2: the BMC's random number, its GUID and its authentication code. */
  datatype Challenge = Challenge(random: Bytes, guid: Bytes, code: Bytes)

  function ReadChallenge(reply: Bytes): Challenge
    requires |Payload(reply)| == 60
  {
    var p := Payload(reply);
    Challenge(p[8..24], p[24..40], p[40..60])
  }

  function NameField(k: Console): Bytes
    requires k.Valid()
  {
    [k.role, |k.name|] + k.name
  }

  function ExpectedRakp2Code(c: Crypto, k: Console, id: uint32, ch: Challenge): Bytes
    requires k.Valid()
  {
    Hmac(c, k.password, Le32(k.remoteId) + Le32(id) + k.random + ch.random + ch.guid + NameField(k))
  }

  function ConsoleRakp3Code(c: Crypto, k: Console, ch: Challenge): Bytes
    requires k.Valid()
  {
    Hmac(c, k.password, ch.random + Le32(k.remoteId) + NameField(k))
  }

  function ConsoleSik(c: Crypto, k: Console, ch: Challenge): Bytes
    requires k.Valid()
  {
    Hmac(c, k.password, k.random + ch.random + NameField(k))
  }

  function ExpectedRakp4Code(c: Crypto, k: Console, id: uint32, ch: Challenge): Bytes
    requires k.Valid()
  {
    Hmac(c, ConsoleSik(c, k, ch), k.random + Le32(id) + ch.guid)[..12]
  }

  // ----- the BMC's side of it -----

  /** The session holds what the console sent in RAKP Message 1 and what it was told. */
  ghost predicate Agrees(s: SessionView, k: Console, id: uint32, ch: Challenge)
    requires k.Valid()
  {
    && s.remoteId == k.remoteId && s.id == id
    && s.remoteRandom == k.random && s.role == k.role
    && s.userName == k.name && s.userNameLength as int == |k.name|
    && s.managedRandom == ch.random && s.guid == ch.guid
  }

  lemma InputsAgree(s: SessionView, k: Console, id: uint32, ch: Challenge)
    requires k.Valid() && Agrees(s, k, id, ch)
    ensures Rakp2Input(s) == Le32(k.remoteId) + Le32(id) + k.random + ch.random + ch.guid + NameField(k)
    ensures Rakp3Input(s) == ch.random + Le32(k.remoteId) + NameField(k)
    ensures SikInput(s) == k.random + ch.random + NameField(k)
    ensures Rakp4Input(s) == k.random + Le32(id) + ch.guid
  {
    assert [s.role, s.userNameLength] + s.userName == NameField(k);
    assert Rakp2Input(s) == Le32(k.remoteId) + Le32(id) + k.random + ch.random + ch.guid + ([s.role, s.userNameLength] + s.userName);
    assert Rakp3Input(s) == ch.random + Le32(k.remoteId) + ([s.role, s.userNameLength] + s.userName);
    assert SikInput(s) == k.random + ch.random + ([s.role, s.userNameLength] + s.userName);
  }

  lemma PacketPayload(payloadType: byte, payload: Bytes)
    ensures Payload(Packet(payloadType, 0, 0, payload)) == payload
  {
    PacketParses(payloadType, 0, 0, |payload|, payload);
  }

  // ----- Open Session -----

  lemma OpenRequestFields(tag: byte, remoteId: uint32)
    ensures var p := OpenRequest(tag, remoteId);
      && FromLe32(p[4..8]) == remoteId
      && p[0] == tag && p[12] == AUTH_HMAC_SHA1 && p[20] == INTEGRITY_HMAC_SHA1_96 && p[28] == CONF_AES_CBC_128
  {
    assert OpenRequest(tag, remoteId)[4..8] == Le32(remoteId);
    Le32RoundTrip(remoteId);
  }

  lemma GrantBody(tag: byte, remoteId: uint32, id: uint32)
    ensures var body := [tag, 0, 0x04, 0x00] + Le32(remoteId) + Le32(id)
        + AlgorithmPayload(0x00, 1) + AlgorithmPayload(0x01, 1) + AlgorithmPayload(0x02, 1);
      && |body| == 36 && body[..4] == [tag, 0, 0x04, 0x00] && body[4..8] == Le32(remoteId) && body[8..12] == Le32(id)
      && body[12..] == [0, 0, 0, 8, 1, 0, 0, 0] + [1, 0, 0, 8, 1, 0, 0, 0] + [2, 0, 0, 8, 1, 0, 0, 0]
  {
  }

  /** A console proposing cipher suite 3 is granted the fresh session, and reads its id. */
  lemma OpenSessionGrants(sessions: Sessions, tag: byte, remoteId: uint32, draws: Draws)
    requires draws.sessionId.Some? && draws.random.Some? && draws.guid.Some?
    ensures var (reply, sessions') := OpenSession(sessions, OpenRequest(tag, remoteId), draws);
      var id := draws.sessionId.value;
      && StatusIs(reply, STATUS_SUCCESS)
      && |Payload(reply.data)| == 36 && GrantedId(reply.data) == id
      && Payload(reply.data)[..4] == [tag, 0x00, 0x04, 0x00] && Payload(reply.data)[4..8] == Le32(remoteId)
      && OutOfSession(reply.data, 0x11)
      && Payload(reply.data)[12..] == [0, 0, 0, 8, 1, 0, 0, 0] + [1, 0, 0, 8, 1, 0, 0, 0] + [2, 0, 0, 8, 1, 0, 0, 0]
      && sessions' == sessions[id := SessionView(remoteId, id, Repeat(16, 0), draws.random.value, 0,
                                       draws.guid.value, [], 0, [], [], [], false, 1, 1, 1, 0)]
  {
    OpenRequestFields(tag, remoteId);
    var id := draws.sessionId.value;
    var s := Negotiated(NewSession(remoteId, id, draws.random.value, draws.guid.value));
    var body := [tag, STATUS_SUCCESS, 0x04, 0x00] + Le32(s.remoteId) + Le32(s.id)
      + AlgorithmPayload(0x00, s.authAlgorithm)
      + AlgorithmPayload(0x01, s.integrityAlgorithm)
      + AlgorithmPayload(0x02, s.confAlgorithm);
    GrantBody(tag, remoteId, id);
    PacketPayload(PAYLOAD_OPEN_SESSION_RESPONSE, body);
    Le32RoundTrip(id);
  }

  /** Any other proposal is refused with the status of the first algorithm that is off, and no
      session is made. */
  lemma OpenSessionRefuses(sessions: Sessions, payload: Bytes, draws: Draws)
    requires |payload| >= 32
    requires payload[12] != 1 || payload[20] != 1 || payload[28] != 1
    ensures var (reply, sessions') := OpenSession(sessions, payload, draws);
      && sessions' == sessions
      && StatusIs(reply,
           if payload[12] != 1 then 0x11
           else if payload[20] != 1 then 0x12
           else 0x18)
      && OutOfSession(reply.data, 0x11)
      && |Payload(reply.data)| == 8 && Payload(reply.data)[0] == payload[0]
      && Payload(reply.data)[4..8] == Le32(FromLe32(payload[4..8]))
  {
    forall status: byte ensures Payload(OpenSessionError(payload[0], FromLe32(payload[4..8]), status))
      == [payload[0], status, 0, 0] + Le32(FromLe32(payload[4..8]))
    {
      PacketPayload(PAYLOAD_OPEN_SESSION_RESPONSE, [payload[0], status, 0, 0] + Le32(FromLe32(payload[4..8])));
    }
  }

  // ----- RAKP 1 and 2 -----

  lemma Rakp1RequestFields(tag: byte, id: uint32, k: Console)
    requires k.Valid()
    ensures var p := Rakp1Request(tag, id, k);
      && |p| == 28 + |k.name|
      && p[0] == tag && FromLe32(p[4..8]) == id && p[8..24] == k.random && p[24] == k.role
      && p[27] as int == |k.name| && p[28..28 + |k.name|] == k.name
  {
    var p := Rakp1Request(tag, id, k);
    assert p[4..8] == Le32(id);
    Le32RoundTrip(id);
    assert p[8..24] == k.random;
    assert p[28..] == k.name;
  }

  lemma Rakp2Fields(c: Crypto, tag: byte, s: SessionView, password: Bytes)
    ensures var reply := Rakp2(c, tag, s, password);
      && |Payload(reply)| == 60
      && Payload(reply)[1] == STATUS_SUCCESS
      && ReadChallenge(reply) == Challenge(s.managedRandom, s.guid, Hmac(c, password, Rakp2Input(s)))
  {
    var code := Hmac(c, password, Rakp2Input(s));
    var body := [tag, STATUS_SUCCESS, 0, 0] + Le32(s.remoteId) + s.managedRandom + s.guid + code;
    PacketPayload(PAYLOAD_RAKP_2, body);
    assert body[8..24] == s.managedRandom;
    assert body[24..40] == s.guid;
    assert body[40..60] == code;
  }

  lemma Rakp2ErrorStatus(tag: byte, s: SessionView)
    ensures StatusIs(Sent(Rakp2Error(tag, s)), STATUS_INVALID_USER_NAME)
  {
    PacketPayload(PAYLOAD_RAKP_2, [tag, STATUS_INVALID_USER_NAME, 0, 0] + Le32(s.remoteId));
  }

  /** RAKP Message 1 on a session of the console's: answered with status 0 exactly when the BMC
      has a password for the name, and then the two sides agree and the console's check of
      RAKP Message 2 succeeds if it holds the same password. */
  lemma Rakp1Agreement<M(!new)>(c: Crypto, host: Host<M>, sessions: Sessions, users: Table, tag: byte, id: uint32, k: Console)
    requires k.Valid() && id in sessions && sessions[id].id == id && sessions[id].remoteId == k.remoteId
    ensures var (reply, sessions') := Rakp1(c, host, sessions, users, Rakp1Request(tag, id, k));
      && (StatusIs(reply, STATUS_SUCCESS) <==> Rakp1Password(host, users, k.name).Some?)
      && (StatusIs(reply, STATUS_SUCCESS) ==>
            && |Payload(reply.data)| == 60
            && id in sessions'
            && var ch := ReadChallenge(reply.data);
            && Agrees(sessions'[id], k, id, ch)
            && (Rakp1Password(host, users, k.name) == Some(k.password) ==> ch.code == ExpectedRakp2Code(c, k, id, ch)))
  {
    Rakp1RequestFields(tag, id, k);
    var s := WithRakp1(sessions[id], k.random, k.role, k.name);
    match Rakp1Password(host, users, k.name)
    case None => Rakp2ErrorStatus(tag, s);
    case Some(password) =>
      Rakp2Fields(c, tag, s, password);
      InputsAgree(s, k, id, ReadChallenge(Rakp2(c, tag, s, password)));
  }

  // ----- whose password -----

  /** `k` is the first of the slots 1 to 15 that holds the name. */
  ghost predicate FirstSlot(users: Table, name: Bytes, k: nat) {
    1 <= k <= 15 && users[k].name == name && forall j :: 1 <= j < k ==> users[j].name != name
  }

  /** The password of the name's first slot, if there is one and it is not empty. */
  ghost predicate SlotPassword(users: Table, name: Bytes, password: Bytes) {
    name != [] && password != [] && exists k: nat :: FirstSlot(users, name, k) && users[k].password == password
  }

  lemma StoredIsSlotPassword(users: Table, name: Bytes, password: Bytes)
    ensures SlotPassword(users, name, password) <==> password != [] && StoredPassword(users, name) == password
  {
    var id := Lookup(users, name);
    if name != [] && id != 0 {
      assert FirstSlot(users, name, id);
    }
    if SlotPassword(users, name, password) {
      var k: nat :| FirstSlot(users, name, k) && users[k].password == password;
      assert id == k;
    }
  }

  /** What each message goes by: the slot's password; otherwise RAKP Message 1 has the configured
      one for the configured user alone, RAKP Message 3 for any name. */
  lemma PasswordsBySlot<M(!new)>(host: Host<M>, users: Table, name: Bytes)
    ensures var none := forall p :: !SlotPassword(users, name, p);
      && (Rakp1Password(host, users, name).None? <==> none && name != host.user)
      && (none && name == host.user ==> Rakp1Password(host, users, name) == Some(host.pass))
      && (none ==> Rakp3Password(host, users, name) == host.pass)
    ensures forall p :: SlotPassword(users, name, p) ==>
      Rakp1Password(host, users, name) == Some(p) && Rakp3Password(host, users, name) == p
  {
    forall p ensures SlotPassword(users, name, p) <==> p != [] && StoredPassword(users, name) == p {
      StoredIsSlotPassword(users, name, p);
    }
    assert SlotPassword(users, name, StoredPassword(users, name)) <==> StoredPassword(users, name) != [];
  }

  /** A packet of this type with session id and sequence number zero. */
  predicate OutOfSession(packet: Bytes, payloadType: byte) {
    |packet| >= 12 && packet[0] == 0x06 && packet[1] == payloadType && forall i :: 2 <= i < 10 ==> packet[i] == 0
  }

  lemma ZeroHeader(payloadType: byte, payload: Bytes)
    ensures OutOfSession(Packet(payloadType, 0, 0, payload), payloadType)
  {
  }

  lemma Rakp2OnWire(c: Crypto, tag: byte, s: SessionView, password: Bytes)
    ensures var p := Payload(Rakp2(c, tag, s, password));
      |p| == 60 && p[..4] == [tag, 0x00, 0, 0] && p[4..8] == Le32(s.remoteId)
    ensures Payload(Rakp2Error(tag, s)) == [tag, 0x0D, 0, 0] + Le32(s.remoteId)
    ensures OutOfSession(Rakp2(c, tag, s, password), 0x13) && OutOfSession(Rakp2Error(tag, s), 0x13)
  {
    var body := [tag, STATUS_SUCCESS, 0, 0] + Le32(s.remoteId) + s.managedRandom + s.guid + Hmac(c, password, Rakp2Input(s));
    PacketPayload(PAYLOAD_RAKP_2, body);
    PacketPayload(PAYLOAD_RAKP_2, [tag, STATUS_INVALID_USER_NAME, 0, 0] + Le32(s.remoteId));
    assert body[4..8] == Le32(s.remoteId);
    ZeroHeader(0x13, body);
    ZeroHeader(0x13, [tag, STATUS_INVALID_USER_NAME, 0, 0] + Le32(s.remoteId));
  }

  lemma Rakp4OnWire(c: Crypto, tag: byte, s: SessionView)
    ensures var p := Payload(Rakp4(c, tag, s));
      |p| == 20 && p[..4] == [tag, 0x00, 0, 0] && p[4..8] == Le32(s.remoteId)
    ensures Payload(Rakp4Error(tag, s)) == [tag, 0x0F, 0, 0] + Le32(s.remoteId)
    ensures OutOfSession(Rakp4(c, tag, s), 0x15) && OutOfSession(Rakp4Error(tag, s), 0x15)
  {
    var body := [tag, STATUS_SUCCESS, 0, 0] + Le32(s.remoteId) + Hmac(c, s.sik, Rakp4Input(s))[..12];
    PacketPayload(PAYLOAD_RAKP_4, body);
    PacketPayload(PAYLOAD_RAKP_4, [tag, STATUS_INVALID_INTEGRITY_CHECK, 0, 0] + Le32(s.remoteId));
    assert body[4..8] == Le32(s.remoteId);
    ZeroHeader(0x15, body);
    ZeroHeader(0x15, [tag, STATUS_INVALID_INTEGRITY_CHECK, 0, 0] + Le32(s.remoteId));
  }

  lemma Rakp1Is<M(!new)>(c: Crypto, host: Host<M>, sessions: Sessions, users: Table, tag: byte, id: uint32, k: Console)
    requires k.Valid() && id in sessions
    ensures var s := WithRakp1(sessions[id], k.random, k.role, k.name);
      var password := Rakp1Password(host, users, k.name);
      Rakp1(c, host, sessions, users, Rakp1Request(tag, id, k)) ==
        (Sent(if password.None? then Rakp2Error(tag, s) else Rakp2(c, tag, s, password.value)), sessions[id := s])
  {
    Rakp1RequestFields(tag, id, k);
  }

  lemma ChallengeFields(c: Crypto, tag: byte, s: SessionView, id: uint32, k: Console, p: Bytes)
    requires k.Valid() && s.id == id && s.remoteId == k.remoteId
    ensures var reply := Rakp2(c, tag, WithRakp1(s, k.random, k.role, k.name), p);
      && |Payload(reply)| == 60 && Payload(reply)[0] == tag && Payload(reply)[1] == 0x00
      && Payload(reply)[4..8] == Le32(k.remoteId)
      && var ch := ReadChallenge(reply);
      ch.code == ExpectedRakp2Code(c, k.(password := p), id, ch)
  {
    var s' := WithRakp1(s, k.random, k.role, k.name);
    Rakp2OnWire(c, tag, s', p);
    Rakp2Fields(c, tag, s', p);
    var payload := Payload(Rakp2(c, tag, s', p));
    assert payload[0] == payload[..4][0] && payload[1] == payload[..4][1];
    InputsAgree(s', k, id, ReadChallenge(Rakp2(c, tag, s', p)));
  }

  /** RAKP Message 1 for a known session, by slots and names alone: status 0x0D, with nothing
      after the console's id, exactly when the name is not the configured user's and no slot has
      a password for it. The session takes the request's fields either way. */
  lemma Rakp1RefusesBySlot<M(!new)>(c: Crypto, host: Host<M>, sessions: Sessions, users: Table, tag: byte, id: uint32, k: Console)
    requires k.Valid() && id in sessions && sessions[id].id == id && sessions[id].remoteId == k.remoteId
    ensures var (reply, sessions') := Rakp1(c, host, sessions, users, Rakp1Request(tag, id, k));
      && reply.Sent? && |Payload(reply.data)| >= 8
      && (Payload(reply.data)[1] == 0x0D <==> k.name != host.user && forall q :: !SlotPassword(users, k.name, q))
      && (Payload(reply.data)[1] == 0x0D ==> Payload(reply.data) == [tag, 0x0D, 0, 0] + Le32(k.remoteId))
      && (Payload(reply.data)[1] != 0x0D ==> Payload(reply.data)[1] == 0x00)
      && sessions' == sessions[id := WithRakp1(sessions[id], k.random, k.role, k.name)]
  {
    PasswordsBySlot(host, users, k.name);
    Rakp1Is(c, host, sessions, users, tag, id, k);
    var s := WithRakp1(sessions[id], k.random, k.role, k.name);
    Rakp2OnWire(c, tag, s, []);
    if Rakp1Password(host, users, k.name).Some? {
      ChallengeFields(c, tag, sessions[id], id, k, Rakp1Password(host, users, k.name).value);
    }
  }

  /** Otherwise status 0 and the code under the slot's password, or under the configured one for
      the configured user, with the request's tag and the console's id. */
  lemma Rakp1AnswersBySlot<M(!new)>(c: Crypto, host: Host<M>, sessions: Sessions, users: Table, tag: byte, id: uint32, k: Console, p: Bytes)
    requires k.Valid() && id in sessions && sessions[id].id == id && sessions[id].remoteId == k.remoteId
    requires SlotPassword(users, k.name, p) || (p == host.pass && k.name == host.user && forall q :: !SlotPassword(users, k.name, q))
    ensures var reply := Rakp1(c, host, sessions, users, Rakp1Request(tag, id, k)).0;
      && reply.Sent? && |Payload(reply.data)| == 60
      && Payload(reply.data)[0] == tag && Payload(reply.data)[1] == 0x00 && Payload(reply.data)[4..8] == Le32(k.remoteId)
      && var ch := ReadChallenge(reply.data);
      ch.code == ExpectedRakp2Code(c, k.(password := p), id, ch)
  {
    PasswordsBySlot(host, users, k.name);
    Rakp1Is(c, host, sessions, users, tag, id, k);
    ChallengeFields(c, tag, sessions[id], id, k, p);
  }

  // ----- RAKP 3 and 4 -----

  lemma Rakp3RequestFields(tag: byte, id: uint32, code: Bytes)
    requires |code| == DIGEST_SIZE
    ensures var p := Rakp3Request(tag, id, code);
      |p| == 28 && p[0] == tag && FromLe32(p[4..8]) == id && p[8..28] == code
  {
    var p := Rakp3Request(tag, id, code);
    assert p[4..8] == Le32(id);
    Le32RoundTrip(id);
    assert p[8..28] == code;
  }

  lemma Rakp4Fields(c: Crypto, tag: byte, s: SessionView)
    ensures var p := Payload(Rakp4(c, tag, s));
      && |p| == 20 && p[1] == STATUS_SUCCESS && p[8..20] == Hmac(c, s.sik, Rakp4Input(s))[..12]
    ensures StatusIs(Sent(Rakp4Error(tag, s)), STATUS_INVALID_INTEGRITY_CHECK)
  {
    var code := Hmac(c, s.sik, Rakp4Input(s))[..12];
    var body := [tag, STATUS_SUCCESS, 0, 0] + Le32(s.remoteId) + code;
    PacketPayload(PAYLOAD_RAKP_4, body);
    assert body[8..20] == code;
    PacketPayload(PAYLOAD_RAKP_4, [tag, STATUS_INVALID_INTEGRITY_CHECK, 0, 0] + Le32(s.remoteId));
  }

  /** Where RAKP Message 1 found a password, RAKP Message 3 finds the same one. */
  lemma SamePassword<M(!new)>(host: Host<M>, users: Table, name: Bytes)
    requires Rakp1Password(host, users, name).Some?
    ensures Rakp3Password(host, users, name) == Rakp1Password(host, users, name).value
  {
  }

  /** RAKP Message 3, at any time at which the session holds what the console sent, whether or
      not RAKP Message 1 accepted the name: accepted exactly when the code is the HMAC under the
      password this handler resolves; a refusal leaves the sessions alone. Acceptance of a console
      with that password gives both sides the same SIK, K1 and K2, and RAKP Message 4 verifies. */
  lemma Rakp3Agreement<M(!new)>(
    c: Crypto, host: Host<M>, sessions: Sessions, users: Table,
    tag: byte, id: uint32, k: Console, ch: Challenge, code: Bytes)
    requires k.Valid() && id in sessions && Agrees(sessions[id], k, id, ch)
    requires |code| == DIGEST_SIZE
    ensures var (reply, sessions') := Rakp3(c, host, sessions, users, Rakp3Request(tag, id, code));
      var password := Rakp3Password(host, users, k.name);
      var expected := ConsoleRakp3Code(c, k.(password := password), ch);
      && (StatusIs(reply, STATUS_SUCCESS) <==> code == expected)
      && (code != expected ==> StatusIs(reply, STATUS_INVALID_INTEGRITY_CHECK) && sessions' == sessions)
      && (code == expected && k.password == password ==>
            && var s := sessions'[id];
            && s.authenticated
            && s.sik == ConsoleSik(c, k, ch)
            && s.k1 == Hmac(c, ConsoleSik(c, k, ch), Constant(0x01))
            && s.k2 == Hmac(c, ConsoleSik(c, k, ch), Constant(0x02))
            && Payload(reply.data)[8..] == ExpectedRakp4Code(c, k, id, ch))
  {
    Rakp3RequestFields(tag, id, code);
    var s := sessions[id];
    var password := Rakp3Password(host, users, k.name);
    InputsAgree(s, k, id, ch);
    var s' := WithKeys(c, s, password);
    InputsAgree(s', k, id, ch);
    Rakp4Fields(c, tag, s');
    Rakp4Fields(c, tag, s);
  }

  lemma Rakp3Is<M(!new)>(c: Crypto, host: Host<M>, sessions: Sessions, users: Table, tag: byte, id: uint32, code: Bytes)
    requires id in sessions && |code| == DIGEST_SIZE
    ensures var s := sessions[id];
      var password := Rakp3Password(host, users, s.userName);
      Rakp3(c, host, sessions, users, Rakp3Request(tag, id, code)).0 ==
        Sent(if code == Hmac(c, password, Rakp3Input(s)) then Rakp4(c, tag, WithKeys(c, s, password)) else Rakp4Error(tag, s))
  {
    Rakp3RequestFields(tag, id, code);
  }

  /** RAKP Message 3, by slots and names alone: status 0 exactly for the code under the name's slot
      password, or under the configured one if no slot has a password for the name; any other code
      gets status 0x0F. Both answers carry the request's tag and the console's id. */
  lemma Rakp3AnswersBySlot<M(!new)>(
    c: Crypto, host: Host<M>, sessions: Sessions, users: Table,
    tag: byte, id: uint32, k: Console, ch: Challenge, code: Bytes, p: Bytes)
    requires k.Valid() && id in sessions && Agrees(sessions[id], k, id, ch) && |code| == DIGEST_SIZE
    requires SlotPassword(users, k.name, p) || (p == host.pass && forall q :: !SlotPassword(users, k.name, q))
    ensures var reply := Rakp3(c, host, sessions, users, Rakp3Request(tag, id, code)).0;
      && reply.Sent? && |Payload(reply.data)| >= 8
      && Payload(reply.data)[0] == tag && Payload(reply.data)[4..8] == Le32(k.remoteId)
      && Payload(reply.data)[1] == (if code == ConsoleRakp3Code(c, k.(password := p), ch) then 0x00 else 0x0F)
  {
    PasswordsBySlot(host, users, k.name);
    Rakp3Is(c, host, sessions, users, tag, id, code);
    var s := sessions[id];
    InputsAgree(s, k, id, ch);
    assert ConsoleRakp3Code(c, k.(password := p), ch) == Hmac(c, p, Rakp3Input(s));
    TagAndId(c, tag, s);
    TagAndId(c, tag, WithKeys(c, s, p));
  }

  lemma TagAndId(c: Crypto, tag: byte, s: SessionView)
    ensures var p := Payload(Rakp4(c, tag, s));
      |p| >= 8 && p[0] == tag && p[1] == 0x00 && p[4..8] == Le32(s.remoteId)
    ensures var p := Payload(Rakp4Error(tag, s));
      |p| >= 8 && p[0] == tag && p[1] == 0x0F && p[4..8] == Le32(s.remoteId)
  {
    Rakp4OnWire(c, tag, s);
    var p := Payload(Rakp4(c, tag, s));
    assert p[0] == p[..4][0] && p[1] == p[..4][1];
  }

  // ----- the whole handshake -----

  /** Open Session, RAKP 1 to 4 in a row, each packet computed from the bytes of the reply
      before it: a console with the BMC's password for its name is accepted, every check on
      either side passes, and both hold the same keys. */
  lemma HandshakeCompletes<M(!new)>(c: Crypto, host: Host<M>, sessions: Sessions, users: Table, draws: Draws, tag: byte, k: Console)
    requires k.Valid() && Rakp1Password(host, users, k.name) == Some(k.password)
    requires draws.sessionId.Some? && draws.random.Some? && draws.guid.Some?
    ensures var (open, sessions1) := OpenSession(sessions, OpenRequest(tag, k.remoteId), draws);
      && StatusIs(open, STATUS_SUCCESS) && |Payload(open.data)| >= 12
      && var id := GrantedId(open.data);
      var (rakp2, sessions2) := Rakp1(c, host, sessions1, users, Rakp1Request(tag, id, k));
      && StatusIs(rakp2, STATUS_SUCCESS) && |Payload(rakp2.data)| == 60
      && var ch := ReadChallenge(rakp2.data);
      && ch.code == ExpectedRakp2Code(c, k, id, ch)
      && var (rakp4, sessions3) := Rakp3(c, host, sessions2, users, Rakp3Request(tag, id, ConsoleRakp3Code(c, k, ch)));
      && StatusIs(rakp4, STATUS_SUCCESS)
      && Payload(rakp4.data)[8..] == ExpectedRakp4Code(c, k, id, ch)
      && id in sessions3 && sessions3[id].authenticated
      && sessions3[id].k1 == Hmac(c, ConsoleSik(c, k, ch), Constant(0x01))
      && sessions3[id].k2 == Hmac(c, ConsoleSik(c, k, ch), Constant(0x02))
  {
    OpenSessionGrants(sessions, tag, k.remoteId, draws);
    var id := draws.sessionId.value;
    var sessions1 := OpenSession(sessions, OpenRequest(tag, k.remoteId), draws).1;
    Rakp1Agreement(c, host, sessions1, users, tag, id, k);
    var (rakp2, sessions2) := Rakp1(c, host, sessions1, users, Rakp1Request(tag, id, k));
    var ch := ReadChallenge(rakp2.data);
    SamePassword(host, users, k.name);
    Rakp3Agreement(c, host, sessions2, users, tag, id, k, ch, ConsoleRakp3Code(c, k, ch));
    assert k.(password := k.password) == k;
  }

  // ----- what the codes bind -----

  ghost predicate NameLengthOk(s: SessionView) {
    |s.userName| == s.userNameLength as int
  }

  /** The inputs of the HMACs determine their fields: nothing can move from one field into
      another. */
  lemma Rakp2InputInjective(s: SessionView, t: SessionView)
    requires NameLengthOk(s) && NameLengthOk(t) && Rakp2Input(s) == Rakp2Input(t)
    ensures s.remoteId == t.remoteId && s.id == t.id && s.remoteRandom == t.remoteRandom
    ensures s.managedRandom == t.managedRandom && s.guid == t.guid
    ensures s.role == t.role && s.userName == t.userName
  {
    var s2, t2 := Le32(s.remoteId) + Le32(s.id), Le32(t.remoteId) + Le32(t.id);
    var s3, t3 := s2 + s.remoteRandom, t2 + t.remoteRandom;
    var s4, t4 := s3 + s.managedRandom, t3 + t.managedRandom;
    var s5, t5 := s4 + s.guid, t4 + t.guid;
    NameInputInjective(s5, s, t5, t);
    CutAlike(s4, s.guid, t4, t.guid);
    CutAlike(s3, s.managedRandom, t3, t.managedRandom);
    CutAlike(s2, s.remoteRandom, t2, t.remoteRandom);
    CutAlike(Le32(s.remoteId), Le32(s.id), Le32(t.remoteId), Le32(t.id));
    Le32Injective(s.remoteId, t.remoteId);
    Le32Injective(s.id, t.id);
  }

  lemma Rakp3InputInjective(s: SessionView, t: SessionView)
    requires NameLengthOk(s) && NameLengthOk(t) && Rakp3Input(s) == Rakp3Input(t)
    ensures s.managedRandom == t.managedRandom && s.remoteId == t.remoteId
    ensures s.role == t.role && s.userName == t.userName
  {
    NameInputInjective(s.managedRandom + Le32(s.remoteId), s, t.managedRandom + Le32(t.remoteId), t);
    CutAlike(s.managedRandom, Le32(s.remoteId), t.managedRandom, Le32(t.remoteId));
    Le32Injective(s.remoteId, t.remoteId);
  }

  lemma SikInputInjective(s: SessionView, t: SessionView)
    requires NameLengthOk(s) && NameLengthOk(t) && SikInput(s) == SikInput(t)
    ensures s.remoteRandom == t.remoteRandom && s.managedRandom == t.managedRandom
    ensures s.role == t.role && s.userName == t.userName
  {
    NameInputInjective(s.remoteRandom + s.managedRandom, s, t.remoteRandom + t.managedRandom, t);
    CutAlike(s.remoteRandom, s.managedRandom, t.remoteRandom, t.managedRandom);
  }

  /** All three end in the role and the counted name. */
  lemma NameInputInjective(a: Bytes, s: SessionView, b: Bytes, t: SessionView)
    requires |a| == |b| && a + [s.role, s.userNameLength] + s.userName == b + [t.role, t.userNameLength] + t.userName
    ensures a == b && s.role == t.role && s.userName == t.userName
  {
    var x, y := [s.role, s.userNameLength], [t.role, t.userNameLength];
    CutAlike(a + x, s.userName, b + y, t.userName);
    CutAlike(a, x, b, y);
    assert x[0] == y[0];
  }

  lemma Le32Injective(m: uint32, n: uint32)
    requires Le32(m) == Le32(n)
    ensures m == n
  {
    Le32RoundTrip(m);
    Le32RoundTrip(n);
  }

  // ----- a repeated RAKP Message 1 -----

  /** What RAKP Message 3 leaves behind: the SIK is the HMAC of the session's own fields. */
  ghost predicate Tied(c: Crypto, password: Bytes, s: SessionView) {
    s.sik == Hmac(c, password, SikInput(s))
  }

  predicate Repeats(s: SessionView, k: Console) {
    k.random == s.remoteRandom && k.role == s.role && k.name == s.userName
  }

  /** To an authenticated session, another RAKP Message 1 changes the fields the keys were made
      from but not the keys: the fields still give the same SIK input exactly when it repeats
      the random number, role and name of the one before. */
  lemma ResentRakp1<M(!new)>(c: Crypto, host: Host<M>, sessions: Sessions, users: Table, tag: byte, id: uint32, k: Console)
    requires k.Valid() && id in sessions && NameLengthOk(sessions[id]) && sessions[id].authenticated
    ensures var s := sessions[id];
      var sessions' := Rakp1(c, host, sessions, users, Rakp1Request(tag, id, k)).1;
      && id in sessions'
      && var s' := sessions'[id];
      && s' == s.(remoteRandom := k.random, role := k.role, userName := k.name, userNameLength := |k.name|)
      && s'.authenticated && s'.sik == s.sik && s'.k1 == s.k1 && s'.k2 == s.k2
      && (SikInput(s') == SikInput(s) <==> Repeats(s, k))
  {
    Rakp1RequestFields(tag, id, k);
    var s := sessions[id];
    var s' := WithRakp1(s, k.random, k.role, k.name);
    if SikInput(s') == SikInput(s) {
      SikInputInjective(s', s);
    }
  }

  /** So no invariant ties the keys to the fields: whatever the primitives and the password, a
      session fresh from RAKP Message 3 stays tied exactly when the repetition is a true one. */
  lemma TieSurvivesIff(s: SessionView, k: Console)
    requires k.Valid() && NameLengthOk(s)
    ensures (forall c: Crypto, password ::
               Tied(c, password, WithRakp1(WithKeys(c, s, password), k.random, k.role, k.name)))
       <==> Repeats(s, k)
  {
    var s' := WithRakp1(s, k.random, k.role, k.name);
    forall c: Crypto, password: Bytes
      ensures Tied(c, password, WithRakp1(WithKeys(c, s, password), k.random, k.role, k.name))
         <==> Hmac(c, password, SikInput(s)) == Hmac(c, password, SikInput(s'))
    {
      assert SikInput(WithRakp1(WithKeys(c, s, password), k.random, k.role, k.name)) == SikInput(s');
    }
    if !Repeats(s, k) {
      if SikInput(s') == SikInput(s) {
        SikInputInjective(s', s);
      }
      var c := Distinguishing(SikInput(s));
      assert Hmac(c, [], SikInput(s))[0] == 0 && Hmac(c, [], SikInput(s'))[0] == 1;
      assert !Tied(c, [], WithRakp1(WithKeys(c, s, []), k.random, k.role, k.name));
    }
  }

  /** Primitives whose HMAC tells `x` from everything else. */
  ghost function Distinguishing(x: Bytes): (c: Crypto)
    ensures forall key, msg :: Hmac(c, key, msg) == Repeat(DIGEST_SIZE, if msg == x then 0 else 1)
  {
    Primitives(
      (key, msg) => Repeat(DIGEST_SIZE, if msg == x then 0 else 1),
      (key, block) => block,
      (key, block) => block,
      msg => Repeat(BLOCK_SIZE, 0))
  }
}
