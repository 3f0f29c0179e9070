/**
 The in-session channel against the pre-session one: what a console reads out of an encrypted
 and authenticated reply is, byte for byte, the message the same request gets in the clear
 (IPMI v2.0 sections 13.28 and 13.29).
 */
module SealedChannel {
  import opened Bytes
  import opened Wrappers
  import opened Crypto
  import opened RmcpPlus
  import AesCbc
  import Msg = IpmiMessage

  // ----- a console that opens packets -----

  /** The trailer that follows the payload: pad bytes of 0xFF, their number, the next header
      0x07, and the truncated HMAC of everything before it, on a four-byte boundary. */
  predicate TrailerOk(c: Crypto, k1: Bytes, packet: Bytes, end: nat)
    requires end <= |packet|
  {
    && |packet| >= end + 14
    && var covered := packet[..|packet| - 12];
    var n := covered[|covered| - 2] as int;
    && packet[|packet| - 12..] == Hmac(c, k1, covered)[..12]
    && covered[|covered| - 1] == 0x07
    && n <= 3 && |covered| == end + n + 2 && |covered| % 4 == 0
    && covered[end..end + n] == Repeat(n, 0xFF)
  }

  function Open(c: Crypto, k1: Bytes, k2: Bytes, packet: Bytes): Option<Bytes>
    requires |k2| >= BLOCK_SIZE
  {
    if |packet| < HEADER_SIZE then
      None
    else
      var h := ParseHeader(packet);
      var end := HEADER_SIZE + h.length as int;
      if end > |packet| || (IsAuthenticated(h.payloadType) && !TrailerOk(c, k1, packet, end)) then
        None
      else if IsEncrypted(h.payloadType) then
        match AesCbc.Decrypt(c, k2, packet[HEADER_SIZE..end]) case Err(_) => None case Ok(m) => Some(m)
      else
        Some(packet[HEADER_SIZE..end])
  }

  // ----- sealing -----

  /** The payload that carries a message of this length. */
  function PayloadSize(payloadType: byte, length: nat): nat {
    if IsEncrypted(payloadType) then BLOCK_SIZE + length + (BLOCK_SIZE - length % BLOCK_SIZE) else length
  }

  function PayloadOf(c: Crypto, k2: Bytes, payloadType: byte, m: Bytes, iv: Block): (p: Bytes)
    requires |k2| >= BLOCK_SIZE
    ensures |p| == PayloadSize(payloadType, |m|)
  {
    if IsEncrypted(payloadType) then
      AesCbc.PayloadRoundTrip(c, k2, m, iv);
      AesCbc.Encrypt(c, k2, m, Some(iv)).value
    else m
  }

  lemma SealShape(c: Crypto, k1: Bytes, packet: Bytes)
    ensures var r := Seal(c, k1, packet);
      var n := IntegrityPad(|packet|);
      && |r| == |packet| + n + 14
      && packet <= r
      && TrailerOk(c, k1, r, |packet|)
  {
    var n := IntegrityPad(|packet|);
    var covered := packet + Repeat(n, 0xFF) + [n as byte, 0x07];
    var r := Seal(c, k1, packet);
    assert r[..|r| - 12] == covered;
    assert r[|r| - 12..] == Hmac(c, k1, covered)[..12];
    assert covered[|packet|..|packet| + n] == Repeat(n, 0xFF);
    assert packet <= covered;
  }

  /** A packet with its trailer, if it is authenticated. */
  function Wire(c: Crypto, k1: Bytes, payloadType: byte, id: uint32, sequence: uint32, payload: Bytes): Bytes {
    var packet := Packet(payloadType, id, sequence, payload);
    if IsAuthenticated(payloadType) then Seal(c, k1, packet) else packet
  }

  lemma WireHeader(c: Crypto, k1: Bytes, payloadType: byte, id: uint32, sequence: uint32, payload: Bytes)
    ensures var w := Wire(c, k1, payloadType, id, sequence, payload);
      && |w| >= HEADER_SIZE + |payload| + (if IsAuthenticated(payloadType) then 14 else 0)
      && ParseHeader(w) == Header(payloadType, id, sequence, |payload| % 0x1_0000)
      && w[HEADER_SIZE..HEADER_SIZE + |payload|] == payload
      && (IsAuthenticated(payloadType) ==> TrailerOk(c, k1, w, HEADER_SIZE + |payload|))
  {
    var w := Wire(c, k1, payloadType, id, sequence, payload);
    var head := HeaderBytes(payloadType, id, sequence, |payload|);
    var packet := Packet(payloadType, id, sequence, payload);
    if IsAuthenticated(payloadType) {
      SealShape(c, k1, packet);
    }
    assert w == packet + w[|packet|..];
    assert w == head + (payload + w[|packet|..]);
    PacketParses(payloadType, id, sequence, |payload|, payload + w[|packet|..]);
    SliceOf(head, payload, w[|packet|..]);
  }

  /** Opening undoes sealing for every message, payload type and IV, exactly when the payload
      fits the 16-bit length field. */
  lemma OpenUndoesSealIff(
    c: Crypto, k1: Bytes, k2: Bytes, payloadType: byte, id: uint32, sequence: uint32, m: Bytes, iv: Block)
    requires |k2| >= BLOCK_SIZE
    ensures Open(c, k1, k2, Wire(c, k1, payloadType, id, sequence, PayloadOf(c, k2, payloadType, m, iv))) == Some(m)
       <==> PayloadSize(payloadType, |m|) < 0x1_0000
  {
    if PayloadSize(payloadType, |m|) < 0x1_0000 {
      FittingOpens(c, k1, k2, payloadType, id, sequence, m, iv);
    } else {
      OverlongOpensShort(c, k1, k2, payloadType, id, sequence, m, iv);
    }
  }

  /** A packet that carries `payload` whole, with its trailer if it is authenticated. */
  ghost predicate HasPayload(c: Crypto, k1: Bytes, w: Bytes, payloadType: byte, id: uint32, payload: Bytes) {
    && |w| >= HEADER_SIZE + |payload| + (if IsAuthenticated(payloadType) then 14 else 0)
    && ParseHeader(w).payloadType == payloadType && ParseHeader(w).sessionId == id
    && ParseHeader(w).length as int == |payload|
    && w[HEADER_SIZE..HEADER_SIZE + |payload|] == payload
    && (IsAuthenticated(payloadType) ==> TrailerOk(c, k1, w, HEADER_SIZE + |payload|))
  }

  /** A payload that decrypts to `m`, or is `m` if it is not encrypted. */
  ghost predicate Holds(c: Crypto, k2: Bytes, payloadType: byte, payload: Bytes, m: Bytes) {
    if IsEncrypted(payloadType) then
      |k2| >= BLOCK_SIZE && |payload| >= BLOCK_SIZE && AesCbc.Decrypt(c, k2, payload) == Ok(m)
    else payload == m
  }

  lemma WireHasPayload(c: Crypto, k1: Bytes, payloadType: byte, id: uint32, sequence: uint32, payload: Bytes)
    requires |payload| < 0x1_0000
    ensures HasPayload(c, k1, Wire(c, k1, payloadType, id, sequence, payload), payloadType, id, payload)
  {
    WireHeader(c, k1, payloadType, id, sequence, payload);
  }

  lemma PayloadHolds(c: Crypto, k2: Bytes, payloadType: byte, m: Bytes, iv: Block)
    requires |k2| >= BLOCK_SIZE
    ensures Holds(c, k2, payloadType, PayloadOf(c, k2, payloadType, m, iv), m)
  {
    AesCbc.PayloadRoundTrip(c, k2, m, iv);
  }

  lemma OpenIs(c: Crypto, k1: Bytes, k2: Bytes, w: Bytes, payloadType: byte, id: uint32, payload: Bytes, m: Bytes)
    requires |k2| >= BLOCK_SIZE
    requires HasPayload(c, k1, w, payloadType, id, payload) && Holds(c, k2, payloadType, payload, m)
    ensures Open(c, k1, k2, w) == Some(m)
  {
  }

  lemma FittingOpens(
    c: Crypto, k1: Bytes, k2: Bytes, payloadType: byte, id: uint32, sequence: uint32, m: Bytes, iv: Block)
    requires |k2| >= BLOCK_SIZE && PayloadSize(payloadType, |m|) < 0x1_0000
    ensures Open(c, k1, k2, Wire(c, k1, payloadType, id, sequence, PayloadOf(c, k2, payloadType, m, iv))) == Some(m)
  {
    var payload := PayloadOf(c, k2, payloadType, m, iv);
    WireHasPayload(c, k1, payloadType, id, sequence, payload);
    PayloadHolds(c, k2, payloadType, m, iv);
    OpenIs(c, k1, k2, Wire(c, k1, payloadType, id, sequence, payload), payloadType, id, payload, m);
  }

  lemma OverlongOpensShort(
    c: Crypto, k1: Bytes, k2: Bytes, payloadType: byte, id: uint32, sequence: uint32, m: Bytes, iv: Block)
    requires |k2| >= BLOCK_SIZE && PayloadSize(payloadType, |m|) >= 0x1_0000
    ensures var r := Open(c, k1, k2, Wire(c, k1, payloadType, id, sequence, PayloadOf(c, k2, payloadType, m, iv)));
      r.Some? ==> |r.value| < |m|
  {
    var payload := PayloadOf(c, k2, payloadType, m, iv);
    var w := Wire(c, k1, payloadType, id, sequence, payload);
    WireHeader(c, k1, payloadType, id, sequence, payload);
    var length := |payload| % 0x1_0000;
    assert length + 0x1_0000 <= |payload|;
    if Open(c, k1, k2, w).Some? && IsEncrypted(payloadType) {
      AesCbc.DecryptShortens(c, k2, w[HEADER_SIZE..HEADER_SIZE + length]);
      assert |payload| <= |m| + 2 * BLOCK_SIZE;
    }
  }

  // ----- the BMC's channel -----

  lemma OpenedIs(c: Crypto, s: SessionView, data: Bytes, payloadType: byte, id: uint32, payload: Bytes, plain: Bytes)
    requires |s.k2| >= BLOCK_SIZE
    requires HasPayload(c, s.k1, data, payloadType, id, payload) && Holds(c, s.k2, payloadType, payload, plain)
    ensures |data| >= HEADER_SIZE
    ensures ParseHeader(data).payloadType == payloadType && ParseHeader(data).sessionId == id
    ensures Opened(c, s, data) == Ok(plain)
  {
  }

  /** A console's packet reaches the command handler as the message it sealed. */
  lemma RequestOpens(c: Crypto, s: SessionView, payloadType: byte, id: uint32, sequence: uint32, plain: Bytes, iv: Block)
    requires |s.k2| >= BLOCK_SIZE && PayloadSize(payloadType, |plain|) < 0x1_0000
    ensures var data := Wire(c, s.k1, payloadType, id, sequence, PayloadOf(c, s.k2, payloadType, plain, iv));
      && |data| >= HEADER_SIZE
      && ParseHeader(data).payloadType == payloadType
      && ParseHeader(data).sessionId == id
      && Opened(c, s, data) == Ok(plain)
  {
    var payload := PayloadOf(c, s.k2, payloadType, plain, iv);
    WireHasPayload(c, s.k1, payloadType, id, sequence, payload);
    PayloadHolds(c, s.k2, payloadType, plain, iv);
    OpenedIs(c, s, Wire(c, s.k1, payloadType, id, sequence, payload), payloadType, id, payload, plain);
  }

  lemma ClearAnswer<M(!new)>(host: Host<M>, world: World<M>, plain: Bytes)
    requires |plain| < 0x1_0000
    ensures var clear := Packet(PAYLOAD_IPMI, 0, 0, plain);
      && |clear| >= HEADER_SIZE
      && PreSession(host, world, clear) ==
           match Msg.ParseMessage(plain)
           case Err(_) => (Failed, world)
           case Ok(msg) =>
             (Sent(Packet(PAYLOAD_IPMI, 0, 0, Answer(host, world, msg).0)), Answer(host, world, msg).1)
  {
    PacketParses(PAYLOAD_IPMI, 0, 0, |plain|, plain);
    var clear := Packet(PAYLOAD_IPMI, 0, 0, plain);
    assert clear[HEADER_SIZE..HEADER_SIZE + |plain|] == plain;
  }

  lemma SealedAnswer<M(!new)>(
    c: Crypto, host: Host<M>, sessions: Sessions, world: World<M>, data: Bytes, draws: Draws, plain: Bytes)
    requires |data| >= HEADER_SIZE && ParseHeader(data).sessionId in sessions && draws.iv.Some?
    requires var s := sessions[ParseHeader(data).sessionId];
      |s.k2| >= BLOCK_SIZE && Opened(c, s, data) == Ok(plain)
    ensures var h := ParseHeader(data);
      var s := sessions[h.sessionId];
      var (reply, _, world') := InSession(c, host, sessions, world, data, draws);
      (reply, world') ==
        match Msg.ParseMessage(plain)
        case Err(_) => (Failed, world)
        case Ok(msg) =>
          var m := Answer(host, world, msg).0;
          (Sent(Wire(c, s.k1, h.payloadType, s.remoteId, Next(s.outbound), PayloadOf(c, s.k2, h.payloadType, m, draws.iv.value))),
           Answer(host, world, msg).1)
  {
  }

  /** For a keyed session and any packet that opens to `plain`: the in-session path answers
      exactly when the clear path answers `plain`, leaves the same state behind, and a console
      that opens the sealed reply gets byte for byte the message of the clear reply, provided it
      fits the length field, and only then. */
  lemma SealedRefinesPlain<M(!new)>(
    c: Crypto, host: Host<M>, sessions: Sessions, world: World<M>, data: Bytes, draws: Draws, plain: Bytes)
    requires |data| >= HEADER_SIZE && |plain| < 0x1_0000
    requires ParseHeader(data).sessionId in sessions && draws.iv.Some?
    requires var s := sessions[ParseHeader(data).sessionId];
      |s.k2| >= BLOCK_SIZE && Opened(c, s, data) == Ok(plain)
    ensures var h := ParseHeader(data);
      var s := sessions[h.sessionId];
      var clear := Packet(PAYLOAD_IPMI, 0, 0, plain);
      && |clear| >= HEADER_SIZE
      && var (inside, _, insideWorld) := InSession(c, host, sessions, world, data, draws);
      var (outside, outsideWorld) := PreSession(host, world, clear);
      && insideWorld == outsideWorld
      && (inside.Sent? <==> outside.Sent?)
      && (outside.Sent? ==>
            && |outside.data| >= HEADER_SIZE
            && var m := outside.data[HEADER_SIZE..];
            Open(c, s.k1, s.k2, inside.data) == Some(m) <==> PayloadSize(h.payloadType, |m|) < 0x1_0000)
  {
    var h := ParseHeader(data);
    var s := sessions[h.sessionId];
    ClearAnswer(host, world, plain);
    SealedAnswer(c, host, sessions, world, data, draws, plain);
    var parsed := Msg.ParseMessage(plain);
    if parsed.Ok? {
      var m := Answer(host, world, parsed.value).0;
      PacketParses(PAYLOAD_IPMI, 0, 0, |m|, m);
      OpenUndoesSealIff(c, s.k1, s.k2, h.payloadType, s.remoteId, Next(s.outbound), m, draws.iv.value);
    }
  }
}
