/**
 What each RMCP+ datagram does, on values: the Open Session and RAKP exchanges and the IPMI
 payloads of internal/ipmi/rmcp_plus.go (IPMI v2.0 sections 13.17 to 13.32). The methods of
 RmcpPlusServer are proved to do exactly this to the session objects.
 */
module RmcpPlus {
  import opened Bytes
  import opened Wrappers
  import opened Crypto
  import opened Accounts
  import AesCbc
  import Msg = IpmiMessage

  const PAYLOAD_IPMI: byte := 0x00
  const PAYLOAD_OPEN_SESSION_REQUEST: byte := 0x10
  const PAYLOAD_OPEN_SESSION_RESPONSE: byte := 0x11
  const PAYLOAD_RAKP_1: byte := 0x12
  const PAYLOAD_RAKP_2: byte := 0x13
  const PAYLOAD_RAKP_3: byte := 0x14
  const PAYLOAD_RAKP_4: byte := 0x15

  const AUTH_HMAC_SHA1: byte := 0x01
  const INTEGRITY_HMAC_SHA1_96: byte := 0x01
  const CONF_AES_CBC_128: byte := 0x01

  const STATUS_SUCCESS: byte := 0x00
  const STATUS_INVALID_USER_NAME: byte := 0x0D
  const STATUS_INVALID_INTEGRITY_CHECK: byte := 0x0F
  const STATUS_INVALID_AUTH_ALGORITHM: byte := 0x11
  const STATUS_INVALID_INTEGRITY_ALGORITHM: byte := 0x12
  const STATUS_INVALID_CONF_ALGORITHM: byte := 0x18

  const HEADER_SIZE := 12

  type Block = b: Bytes | |b| == BLOCK_SIZE witness Repeat(16, 0)

  const ZERO_BLOCK: Block := Repeat(16, 0)

  // ----- the surroundings of a datagram -----

  /** The user table, and everything else a command may read or change. */
  datatype World<M> = World(users: Table, rest: M)

  datatype CommandResult<M> = CommandResult(code: byte, data: Bytes, world: World<M>)

  /** handleIPMICommand: a function of the state, the network function, the command and its data. */
  type Commands<!M> = (World<M>, byte, byte, Bytes) -> CommandResult<M>

  datatype Host<!M> = Host(user: Bytes, pass: Bytes, commands: Commands<M>)

  /** What the random source answers while one datagram is handled; None is a failed read. */
  datatype Draws = Draws(sessionId: Option<uint32>, random: Option<Block>, guid: Option<Block>, iv: Option<Block>)

  /** A reply, an error (logged, nothing sent), or a slice out of bounds that ends the server. */
  datatype Reply = Sent(data: Bytes) | Failed | Panicked

  // ----- sessions -----

  datatype SessionView = SessionView(
    remoteId: uint32,
    id: uint32,
    remoteRandom: Block,
    managedRandom: Block,
    role: byte,
    guid: Block,
    userName: Bytes,
    userNameLength: byte,
    sik: Bytes,
    k1: Bytes,
    k2: Bytes,
    authenticated: bool,
    authAlgorithm: byte,
    integrityAlgorithm: byte,
    confAlgorithm: byte,
    outbound: uint32)

  type Sessions = map<uint32, SessionView>

  function NewSession(remoteId: uint32, id: uint32, random: Block, guid: Block): SessionView {
    SessionView(remoteId, id, ZERO_BLOCK, random, 0, guid, [], 0, [], [], [], false, 0, 0, 0, 0)
  }

  function Negotiated(s: SessionView): SessionView {
    s.(authAlgorithm := AUTH_HMAC_SHA1, integrityAlgorithm := INTEGRITY_HMAC_SHA1_96, confAlgorithm := CONF_AES_CBC_128)
  }

  // ----- packets -----

  datatype Header = Header(payloadType: byte, sessionId: uint32, sequence: uint32, length: uint16)

  function ParseHeader(data: Bytes): Header
    requires |data| >= HEADER_SIZE
  {
    Header(data[1], FromLe32(data[2..6]), FromLe32(data[6..10]), FromLe16(data[10..12]))
  }

  /** The payload length is written modulo 2^16. */
  function HeaderBytes(payloadType: byte, sessionId: uint32, sequence: uint32, length: nat): (r: Bytes)
    ensures |r| == HEADER_SIZE
  {
    [Msg.AUTH_TYPE_RMCP_PLUS, payloadType] + Le32(sessionId) + Le32(sequence) + Le16(length % 0x1_0000)
  }

  function Packet(payloadType: byte, sessionId: uint32, sequence: uint32, payload: Bytes): Bytes {
    HeaderBytes(payloadType, sessionId, sequence, |payload|) + payload
  }

  lemma PacketParses(payloadType: byte, sessionId: uint32, sequence: uint32, length: nat, rest: Bytes)
    ensures var p := HeaderBytes(payloadType, sessionId, sequence, length) + rest;
      && |p| >= HEADER_SIZE
      && ParseHeader(p) == Header(payloadType, sessionId, sequence, length % 0x1_0000)
      && p[HEADER_SIZE..] == rest
      && p[0] == Msg.AUTH_TYPE_RMCP_PLUS
  {
    var p := HeaderBytes(payloadType, sessionId, sequence, length) + rest;
    assert p[2..6] == Le32(sessionId);
    assert p[6..10] == Le32(sequence);
    assert p[10..12] == Le16(length % 0x1_0000);
    Le32RoundTrip(sessionId);
    Le32RoundTrip(sequence);
    Le16RoundTrip(length % 0x1_0000);
  }

  // ----- Open Session (section 13.17) -----

  function AlgorithmPayload(kind: byte, algorithm: byte): Bytes {
    [kind, 0, 0, 0x08, algorithm, 0, 0, 0]
  }

  function OpenSessionError(tag: byte, remoteId: uint32, status: byte): Bytes {
    Packet(PAYLOAD_OPEN_SESSION_RESPONSE, 0, 0, [tag, status, 0, 0] + Le32(remoteId))
  }

  function OpenSessionAccepted(tag: byte, s: SessionView): Bytes {
    Packet(PAYLOAD_OPEN_SESSION_RESPONSE, 0, 0,
      [tag, STATUS_SUCCESS, 0x04, 0x00] + Le32(s.remoteId) + Le32(s.id)
      + AlgorithmPayload(0x00, s.authAlgorithm)
      + AlgorithmPayload(0x01, s.integrityAlgorithm)
      + AlgorithmPayload(0x02, s.confAlgorithm))
  }

  function OpenSession(sessions: Sessions, payload: Bytes, draws: Draws): (Reply, Sessions) {
    if |payload| < 32 then
      (Failed, sessions)
    else
      var tag, remoteId := payload[0], FromLe32(payload[4..8]);
      if payload[12] != AUTH_HMAC_SHA1 then
        (Sent(OpenSessionError(tag, remoteId, STATUS_INVALID_AUTH_ALGORITHM)), sessions)
      else if payload[20] != INTEGRITY_HMAC_SHA1_96 then
        (Sent(OpenSessionError(tag, remoteId, STATUS_INVALID_INTEGRITY_ALGORITHM)), sessions)
      else if payload[28] != CONF_AES_CBC_128 then
        (Sent(OpenSessionError(tag, remoteId, STATUS_INVALID_CONF_ALGORITHM)), sessions)
      else if draws.sessionId.None? || draws.random.None? || draws.guid.None? then
        (Failed, sessions)
      else
        var s := Negotiated(NewSession(remoteId, draws.sessionId.value, draws.random.value, draws.guid.value));
        (Sent(OpenSessionAccepted(tag, s)), sessions[s.id := s])
  }

  // ----- RAKP (sections 13.20 to 13.23, 13.31, 13.32) -----

  /** What the BMC's RAKP Message 2 authenticates. */
  function Rakp2Input(s: SessionView): Bytes {
    Le32(s.remoteId) + Le32(s.id) + s.remoteRandom + s.managedRandom + s.guid + [s.role, s.userNameLength] + s.userName
  }

  /** What the console's RAKP Message 3 authenticates. */
  function Rakp3Input(s: SessionView): Bytes {
    s.managedRandom + Le32(s.remoteId) + [s.role, s.userNameLength] + s.userName
  }

  function SikInput(s: SessionView): Bytes {
    s.remoteRandom + s.managedRandom + [s.role, s.userNameLength] + s.userName
  }

  /** What the BMC's RAKP Message 4 authenticates, under the new SIK. */
  function Rakp4Input(s: SessionView): Bytes {
    s.remoteRandom + Le32(s.id) + s.guid
  }

  function Constant(b: byte): (r: Bytes)
    ensures |r| == DIGEST_SIZE
  {
    Repeat(DIGEST_SIZE, b)
  }

  function StoredPassword(users: Table, name: Bytes): Bytes {
    var id := Lookup(users, name);
    if id == 0 then [] else users[id].password
  }

  /** RAKP Message 1: a stored password, or the configured one for the configured user. */
  function Rakp1Password<M(!new)>(host: Host<M>, users: Table, name: Bytes): Option<Bytes> {
    var stored := StoredPassword(users, name);
    if stored != [] then Some(stored) else if name == host.user then Some(host.pass) else None
  }

  /** RAKP Message 3 does not compare the name with the configured user. */
  function Rakp3Password<M(!new)>(host: Host<M>, users: Table, name: Bytes): Bytes {
    var stored := StoredPassword(users, name);
    if stored != [] then stored else host.pass
  }

  function Rakp2Error(tag: byte, s: SessionView): Bytes {
    Packet(PAYLOAD_RAKP_2, 0, 0, [tag, STATUS_INVALID_USER_NAME, 0, 0] + Le32(s.remoteId))
  }

  function Rakp2(c: Crypto, tag: byte, s: SessionView, password: Bytes): Bytes {
    Packet(PAYLOAD_RAKP_2, 0, 0,
      [tag, STATUS_SUCCESS, 0, 0] + Le32(s.remoteId) + s.managedRandom + s.guid + Hmac(c, password, Rakp2Input(s)))
  }

  function WithRakp1(s: SessionView, random: Block, role: byte, name: Bytes): SessionView
    requires |name| < 0x100
  {
    s.(remoteRandom := random, role := role, userNameLength := |name|, userName := name)
  }

  /** The session takes the fields of the request before the user is known to exist. */
  function Rakp1<M(!new)>(c: Crypto, host: Host<M>, sessions: Sessions, users: Table, payload: Bytes): (Reply, Sessions) {
    if |payload| < 28 || |payload| < 28 + payload[27] as int then
      (Failed, sessions)
    else
      var tag, id := payload[0], FromLe32(payload[4..8]);
      if id !in sessions then
        (Failed, sessions)
      else
        var name := payload[28..28 + payload[27] as int];
        var s := WithRakp1(sessions[id], payload[8..24], payload[24], name);
        match Rakp1Password(host, users, name)
        case None => (Sent(Rakp2Error(tag, s)), sessions[id := s])
        case Some(password) => (Sent(Rakp2(c, tag, s, password)), sessions[id := s])
  }

  function WithKeys(c: Crypto, s: SessionView, password: Bytes): SessionView {
    var sik := Hmac(c, password, SikInput(s));
    s.(sik := sik, k1 := Hmac(c, sik, Constant(0x01)), k2 := Hmac(c, sik, Constant(0x02)), authenticated := true)
  }

  function Rakp4Error(tag: byte, s: SessionView): Bytes {
    Packet(PAYLOAD_RAKP_4, 0, 0, [tag, STATUS_INVALID_INTEGRITY_CHECK, 0, 0] + Le32(s.remoteId))
  }

  function Rakp4(c: Crypto, tag: byte, s: SessionView): Bytes {
    Packet(PAYLOAD_RAKP_4, 0, 0,
      [tag, STATUS_SUCCESS, 0, 0] + Le32(s.remoteId) + Hmac(c, s.sik, Rakp4Input(s))[..12])
  }

  function Rakp3<M(!new)>(c: Crypto, host: Host<M>, sessions: Sessions, users: Table, payload: Bytes): (Reply, Sessions) {
    if |payload| < 28 then
      (Failed, sessions)
    else
      var tag, id := payload[0], FromLe32(payload[4..8]);
      if id !in sessions then
        (Failed, sessions)
      else
        var s := sessions[id];
        var password := Rakp3Password(host, users, s.userName);
        if payload[8..28] != Hmac(c, password, Rakp3Input(s)) then
          (Sent(Rakp4Error(tag, s)), sessions)
        else
          var s' := WithKeys(c, s, password);
          (Sent(Rakp4(c, tag, s')), sessions[id := s'])
  }

  // ----- IPMI payloads -----

  /** The message a request is answered with, and the state after the command. */
  function Answer<M(!new)>(host: Host<M>, world: World<M>, msg: Msg.Message): (Bytes, World<M>) {
    var r := host.commands(world, msg.GetNetFn(), msg.command, msg.data);
    (Msg.BuildResponse(Msg.ResponseNetFn(msg.GetNetFn()), msg.command, r.code, r.data, msg.sourceLun), r.world)
  }

  function PreSession<M(!new)>(host: Host<M>, world: World<M>, data: Bytes): (Reply, World<M>)
    requires |data| >= HEADER_SIZE
  {
    var end := HEADER_SIZE + ParseHeader(data).length as int;
    if end > |data| then
      (Failed, world)
    else
      match Msg.ParseMessage(data[HEADER_SIZE..end])
      case Err(_) => (Failed, world)
      case Ok(msg) =>
        var (resp, world') := Answer(host, world, msg);
        (Sent(Packet(PAYLOAD_IPMI, 0, 0, resp)), world')
  }

  predicate IsEncrypted(payloadType: byte) {
    payloadType / 0x80 == 1
  }

  predicate IsAuthenticated(payloadType: byte) {
    payloadType / 0x40 % 2 == 1
  }

  function IntegrityPad(length: nat): (n: nat)
    ensures n <= 3 && (length + n + 2) % 4 == 0
  {
    (4 - (length + 2) % 4) % 4
  }

  /** Pad, pad length and next header, then the truncated HMAC over all that precedes it. */
  function Seal(c: Crypto, k1: Bytes, packet: Bytes): Bytes {
    var n := IntegrityPad(|packet|);
    var covered := packet + Repeat(n, 0xFF) + [n as byte, 0x07];
    covered + Hmac(c, k1, covered)[..12]
  }

  /** The request's plaintext message, when the packet reaches the command handler. */
  function Opened(c: Crypto, s: SessionView, data: Bytes): Result<Bytes, Reply>
    requires |data| >= HEADER_SIZE
  {
    var h := ParseHeader(data);
    var end := HEADER_SIZE + h.length as int;
    if end > |data| then
      Err(Failed)
    else if IsAuthenticated(h.payloadType) && |data| < end + 14 then
      Err(Failed)
    else
      var payload := data[HEADER_SIZE..end];
      if !IsEncrypted(h.payloadType) then
        Ok(payload)
      else if |payload| < BLOCK_SIZE then
        Err(Failed)
      else if |s.k2| < BLOCK_SIZE then
        Err(Panicked)
      else
        match AesCbc.Decrypt(c, s.k2, payload)
        case Err(_) => Err(Failed)
        case Ok(plain) => Ok(plain)
  }

  function Next(n: uint32): uint32 {
    (n + 1) % 0x1_0000_0000
  }

  function SealedReply(c: Crypto, s: SessionView, payloadType: byte, payload: Bytes): Bytes {
    var packet := Packet(payloadType, s.remoteId, s.outbound, payload);
    if IsAuthenticated(payloadType) then Seal(c, s.k1, packet) else packet
  }

  function InSession<M(!new)>(c: Crypto, host: Host<M>, sessions: Sessions, world: World<M>, data: Bytes, draws: Draws):
    (Reply, Sessions, World<M>)
    requires |data| >= HEADER_SIZE
  {
    var h := ParseHeader(data);
    if h.sessionId !in sessions then
      (Failed, sessions, world)
    else
      var s := sessions[h.sessionId];
      match Opened(c, s, data)
      case Err(e) => (e, sessions, world)
      case Ok(plain) =>
        match Msg.ParseMessage(plain)
        case Err(_) => (Failed, sessions, world)
        case Ok(msg) =>
          var (resp, world') := Answer(host, world, msg);
          if IsEncrypted(h.payloadType) && draws.iv.None? then
            (Failed, sessions, world')
          else
            var payload := if IsEncrypted(h.payloadType) then AesCbc.Encrypt(c, s.k2, resp, draws.iv).value else resp;
            var s' := s.(outbound := Next(s.outbound));
            (Sent(SealedReply(c, s', h.payloadType, payload)), sessions[h.sessionId := s'], world')
  }

  // ----- one datagram -----

  datatype Step<M> = Step(reply: Reply, sessions: Sessions, world: World<M>)

  function HandleMessage<M(!new)>(c: Crypto, host: Host<M>, sessions: Sessions, world: World<M>, data: Bytes, draws: Draws): Step<M> {
    if |data| < HEADER_SIZE then
      Step(Failed, sessions, world)
    else
      var h := ParseHeader(data);
      var kind := h.payloadType % 0x40;
      if kind == PAYLOAD_OPEN_SESSION_REQUEST then
        var (reply, sessions') := OpenSession(sessions, data[HEADER_SIZE..], draws);
        Step(reply, sessions', world)
      else if kind == PAYLOAD_RAKP_1 then
        var (reply, sessions') := Rakp1(c, host, sessions, world.users, data[HEADER_SIZE..]);
        Step(reply, sessions', world)
      else if kind == PAYLOAD_RAKP_3 then
        var (reply, sessions') := Rakp3(c, host, sessions, world.users, data[HEADER_SIZE..]);
        Step(reply, sessions', world)
      else if kind == PAYLOAD_IPMI then
        if h.sessionId == 0 then
          var (reply, world') := PreSession(host, world, data);
          Step(reply, sessions, world')
        else
          var (reply, sessions', world') := InSession(c, host, sessions, world, data, draws);
          Step(reply, sessions', world')
      else
        Step(Failed, sessions, world)
  }

  // ----- byte by byte -----

  /** The session header on the wire, and as it is read. */
  lemma HeaderOnWire(payloadType: byte, sessionId: uint32, sequence: uint32, payload: Bytes)
    ensures var p := Packet(payloadType, sessionId, sequence, payload);
      && |p| == 12 + |payload| && p[0] == 0x06 && p[1] == payloadType
      && LittleEndian(p[2..6]) == sessionId as int && LittleEndian(p[6..10]) == sequence as int
      && LittleEndian(p[10..12]) == |payload| % 0x1_0000 && p[12..] == payload
  {
    var p := Packet(payloadType, sessionId, sequence, payload);
    assert p[2..6] == Le32(sessionId) && p[6..10] == Le32(sequence) && p[10..12] == Le16(|payload| % 0x1_0000);
    FieldsAreLittleEndian(|payload| % 0x1_0000, sessionId, [0, 0], [0, 0, 0, 0]);
    FieldsAreLittleEndian(0, sequence, [0, 0], [0, 0, 0, 0]);
  }

  lemma HeaderReads(data: Bytes)
    requires |data| >= 12
    ensures var h := ParseHeader(data);
      && h.payloadType == data[1] && h.sessionId as int == LittleEndian(data[2..6])
      && h.sequence as int == LittleEndian(data[6..10]) && h.length as int == LittleEndian(data[10..12])
  {
    FieldsAreLittleEndian(0, 0, data[10..12], data[2..6]);
    FieldsAreLittleEndian(0, 0, data[10..12], data[6..10]);
  }

  /** Bit 7 of the payload type says encrypted, bit 6 authenticated. */
  lemma PayloadTypeBits(payloadType: byte)
    ensures IsEncrypted(payloadType) <==> Bit(payloadType, 7) == 1
    ensures IsAuthenticated(payloadType) <==> Bit(payloadType, 6) == 1
  {
    var t := payloadType as int;
    assert t / 2 / 2 / 2 / 2 / 2 / 2 == t / 0x40;
    BitAt(t, 6);
    BitAt(t, 7);
  }

  lemma BitAt(x: nat, i: nat)
    requires i == 6 || i == 7
    ensures Bit(x, i) == (if i == 6 then x / 0x40 else x / 0x80) % 2
  {
    var x1, x2 := x / 2, x / 4;
    assert Bit(x, i) == Bit(x / 2, i - 1) == Bit(x / 2 / 2, i - 2);
    var y := x / 2 / 2;
    assert Bit(y, i - 2) == Bit(y / 2, i - 3) == Bit(y / 2 / 2, i - 4);
    var z := y / 2 / 2;
    assert Bit(z, i - 4) == Bit(z / 2, i - 5) == Bit(z / 2 / 2, i - 6);
    var w := z / 2 / 2;
    assert w == x / 0x40;
    assert i == 7 ==> Bit(w, 1) == Bit(w / 2, 0);
  }

  /** A packet goes to the handler of its payload type and session; any other type fails and
      changes nothing. */
  lemma Dispatch<M(!new)>(c: Crypto, host: Host<M>, sessions: Sessions, world: World<M>, data: Bytes, draws: Draws)
    ensures var step := HandleMessage(c, host, sessions, world, data, draws);
      if |data| < 12 then step == Step(Failed, sessions, world)
      else
        var kind, payload := data[1] % 0x40, data[12..];
        && (kind == 0x10 ==>
              step == Step(OpenSession(sessions, payload, draws).0, OpenSession(sessions, payload, draws).1, world))
        && (kind == 0x12 ==>
              step == Step(Rakp1(c, host, sessions, world.users, payload).0, Rakp1(c, host, sessions, world.users, payload).1, world))
        && (kind == 0x14 ==>
              step == Step(Rakp3(c, host, sessions, world.users, payload).0, Rakp3(c, host, sessions, world.users, payload).1, world))
        && (kind == 0x00 && ParseHeader(data).sessionId == 0 ==>
              step == Step(PreSession(host, world, data).0, sessions, PreSession(host, world, data).1))
        && (kind !in {0x00, 0x10, 0x12, 0x14} ==> step == Step(Failed, sessions, world))
  {
  }

  /** An Open Session request too short, or whose random numbers cannot be drawn, fails; so do
      RAKP messages too short or for an unknown session. Nothing changes then. */
  lemma HandshakeFailures<M(!new)>(c: Crypto, host: Host<M>, sessions: Sessions, users: Table, payload: Bytes, draws: Draws)
    ensures |payload| < 32 || (payload[12] == 1 && payload[20] == 1 && payload[28] == 1
              && (draws.sessionId.None? || draws.random.None? || draws.guid.None?)) ==>
      OpenSession(sessions, payload, draws) == (Failed, sessions)
    ensures |payload| < 28 || |payload| < 28 + payload[27] as int || FromLe32(payload[4..8]) !in sessions ==>
      Rakp1(c, host, sessions, users, payload) == (Failed, sessions)
    ensures |payload| < 28 || FromLe32(payload[4..8]) !in sessions ==>
      Rakp3(c, host, sessions, users, payload) == (Failed, sessions)
  {
  }
}
