/**
 The four ways to one command: IPMI v1.5, RMCP+ in the clear, RMCP+ inside a session, and the
 VM protocol. A console that sends the same request over each of them reads the same answer
 and leaves the same state behind.
 */
module Transport {
  import opened Bytes
  import opened Wrappers
  import opened Crypto
  import opened RmcpPlus
  import opened IpmiServer
  import opened SealedChannel
  import Vm = VmServer
  import VmProtocol
  import Msg = IpmiMessage

  /** What every transport should deliver: the command's answer, under the odd network function of
      the request's pair. */
  ghost function Expected<M(!new)>(host: Host<M>, world: World<M>, req: Msg.Request): (Msg.Response, World<M>) {
    var r := host.commands(world, req.netFn, req.cmd, req.data);
    (Msg.Response(req.netFn / 2 * 2 + 1, req.cmd, r.code, r.data, req.seqLun), r.world)
  }

  /** So the response's network function is odd, and of the request's pair. */
  lemma ExpectedNetFn<M(!new)>(host: Host<M>, world: World<M>, req: Msg.Request)
    ensures var r := Expected(host, world, req).0;
      r.netFn % 2 == 1 && r.netFn / 2 == req.netFn / 2
  {
  }

  lemma AnswerReads<M(!new)>(host: Host<M>, world: World<M>, req: Msg.Request)
    requires req.Valid()
    ensures var parsed := Msg.ParseMessage(Msg.BuildRequest(req));
      && parsed.Ok?
      && var (resp, world') := Answer(host, world, parsed.value);
      && (Msg.ReadResponse(resp), world') == (Some(Expected(host, world, req).0), Expected(host, world, req).1)
      && |resp| == 8 + |Expected(host, world, req).0.data|
  {
    Msg.RequestParses(req);
    var r := host.commands(world, req.netFn, req.cmd, req.data);
    Msg.ResponseReads(Msg.ResponseNetFn(req.netFn), req.cmd, r.code, r.data, req.seqLun);
  }

  // ----- IPMI v1.5 -----

  function Request15(c: Crypto, header: Msg.SessionHeader, password: Bytes, req: Msg.Request): Bytes
    requires req.Valid()
  {
    Msg.SerializeRmcp(Msg.RMCP_CLASS_IPMI, Msg.SerializeIpmi15(c, header, Msg.BuildRequest(req), password))
  }

  function Read15(reply: Reply): Option<Msg.Response> {
    if !reply.Sent? || |reply.data| < 4 then None
    else match Msg.Message15(reply.data[4..]) case None => None case Some(m) => Msg.ReadResponse(m)
  }

  lemma Over15<M(!new)>(
    c: Crypto, host: Host<M>, sessions: Sessions, world: World<M>, draws: Draws,
    header: Msg.SessionHeader, req: Msg.Request)
    requires req.Valid() && header.authType != Msg.AUTH_TYPE_RMCP_PLUS && 7 + |req.data| < 0x100
    requires 8 + |Expected(host, world, req).0.data| < 0x100
    ensures var step := HandleDatagram(c, host, sessions, world, Request15(c, header, host.pass, req), draws);
      (Read15(step.reply), step.world) == (Some(Expected(host, world, req).0), Expected(host, world, req).1)
  {
    var msg := Msg.BuildRequest(req);
    var payload := Msg.SerializeIpmi15(c, header, msg, host.pass);
    Msg.RmcpRoundTrip(Msg.RMCP_CLASS_IPMI, payload);
    Msg.Ipmi15Parses(c, header, msg, host.pass);
    AnswerReads(host, world, req);
    var resp := Answer(host, world, Msg.ParseMessage(msg).value).0;
    Msg.Message15Exact(c, header, resp, host.pass);
    var wrapped := Msg.SerializeIpmi15(c, header, resp, host.pass);
    assert payload[0] == header.authType;
    assert Msg.SerializeRmcp(Msg.RMCP_CLASS_IPMI, wrapped)[4..] == wrapped;
  }

  // ----- RMCP+ -----

  function RequestClear(req: Msg.Request): Bytes
    requires req.Valid()
  {
    Msg.SerializeRmcp(Msg.RMCP_CLASS_IPMI, Packet(PAYLOAD_IPMI, 0, 0, Msg.BuildRequest(req)))
  }

  function ReadClear(reply: Reply): Option<Msg.Response> {
    if !reply.Sent? || |reply.data| < 4 + HEADER_SIZE then None
    else
      var packet := reply.data[4..];
      var end := HEADER_SIZE + ParseHeader(packet).length as int;
      if end > |packet| then None else Msg.ReadResponse(packet[HEADER_SIZE..end])
  }

  lemma FramedPacket(packet: Bytes)
    ensures Msg.SerializeRmcp(Msg.RMCP_CLASS_IPMI, packet)[4..] == packet
  {
  }

  lemma ReadsClear(resp: Bytes)
    requires |resp| < 0x1_0000
    ensures ReadClear(Framed(Sent(Packet(PAYLOAD_IPMI, 0, 0, resp)))) == Msg.ReadResponse(resp)
  {
    var packet := Packet(PAYLOAD_IPMI, 0, 0, resp);
    PacketParses(PAYLOAD_IPMI, 0, 0, |resp|, resp);
    FramedPacket(packet);
    assert packet[HEADER_SIZE..HEADER_SIZE + |resp|] == resp;
  }

  lemma ClearStep<M(!new)>(
    c: Crypto, host: Host<M>, sessions: Sessions, world: World<M>, draws: Draws, msg: Bytes)
    requires |msg| < 0x1_0000 && Msg.ParseMessage(msg).Ok?
    ensures var (resp, world') := Answer(host, world, Msg.ParseMessage(msg).value);
      HandleDatagram(c, host, sessions, world, Msg.SerializeRmcp(Msg.RMCP_CLASS_IPMI, Packet(PAYLOAD_IPMI, 0, 0, msg)), draws)
      == Step(Framed(Sent(Packet(PAYLOAD_IPMI, 0, 0, resp))), sessions, world')
  {
    PacketParses(PAYLOAD_IPMI, 0, 0, |msg|, msg);
    DatagramIsPacket(c, host, sessions, world, Packet(PAYLOAD_IPMI, 0, 0, msg), draws);
    ClearAnswer(host, world, msg);
  }

  lemma OverClear<M(!new)>(
    c: Crypto, host: Host<M>, sessions: Sessions, world: World<M>, draws: Draws, req: Msg.Request)
    requires req.Valid() && 7 + |req.data| < 0x1_0000
    requires 8 + |Expected(host, world, req).0.data| < 0x1_0000
    ensures var step := HandleDatagram(c, host, sessions, world, RequestClear(req), draws);
      (ReadClear(step.reply), step.world) == (Some(Expected(host, world, req).0), Expected(host, world, req).1)
  {
    var msg := Msg.BuildRequest(req);
    AnswerReads(host, world, req);
    ClearStep(c, host, sessions, world, draws, msg);
    ReadsClear(Answer(host, world, Msg.ParseMessage(msg).value).0);
  }

  function RequestSealed(c: Crypto, s: SessionView, payloadType: byte, sequence: uint32, req: Msg.Request, iv: Block): Bytes
    requires req.Valid() && |s.k2| >= BLOCK_SIZE
  {
    Msg.SerializeRmcp(Msg.RMCP_CLASS_IPMI,
      Wire(c, s.k1, payloadType, s.id, sequence, PayloadOf(c, s.k2, payloadType, Msg.BuildRequest(req), iv)))
  }

  function ReadSealed(c: Crypto, s: SessionView, reply: Reply): Option<Msg.Response>
    requires |s.k2| >= BLOCK_SIZE
  {
    if !reply.Sent? || |reply.data| < 4 then None
    else match Open(c, s.k1, s.k2, reply.data[4..]) case None => None case Some(m) => Msg.ReadResponse(m)
  }

  lemma SealedStep<M(!new)>(
    c: Crypto, host: Host<M>, sessions: Sessions, world: World<M>, draws: Draws,
    id: uint32, payloadType: byte, sequence: uint32, msg: Bytes, iv: Block)
    requires id != 0 && id in sessions && |sessions[id].k2| >= BLOCK_SIZE
    requires payloadType % 0x40 == PAYLOAD_IPMI && draws.iv.Some?
    requires PayloadSize(payloadType, |msg|) < 0x1_0000 && Msg.ParseMessage(msg).Ok?
    ensures var s := sessions[id];
      var packet := Wire(c, s.k1, payloadType, id, sequence, PayloadOf(c, s.k2, payloadType, msg, iv));
      var (resp, world') := Answer(host, world, Msg.ParseMessage(msg).value);
      var step := HandleDatagram(c, host, sessions, world, Msg.SerializeRmcp(Msg.RMCP_CLASS_IPMI, packet), draws);
      (step.reply, step.world) ==
        (Framed(Sent(Wire(c, s.k1, payloadType, s.remoteId, Next(s.outbound), PayloadOf(c, s.k2, payloadType, resp, draws.iv.value)))),
         world')
  {
    var s := sessions[id];
    var payload := PayloadOf(c, s.k2, payloadType, msg, iv);
    var packet := Wire(c, s.k1, payloadType, id, sequence, payload);
    RequestOpens(c, s, payloadType, id, sequence, msg, iv);
    WireFirstByte(c, s.k1, payloadType, id, sequence, payload);
    DatagramIsPacket(c, host, sessions, world, packet, draws);
    SealedAnswer(c, host, sessions, world, packet, draws, msg);
  }

  lemma ReadsSealed(c: Crypto, s: SessionView, payloadType: byte, resp: Bytes, iv: Block, sequence: uint32)
    requires |s.k2| >= BLOCK_SIZE && PayloadSize(payloadType, |resp|) < 0x1_0000
    ensures ReadSealed(c, s, Framed(Sent(Wire(c, s.k1, payloadType, s.remoteId, sequence, PayloadOf(c, s.k2, payloadType, resp, iv)))))
         == Msg.ReadResponse(resp)
  {
    var packet := Wire(c, s.k1, payloadType, s.remoteId, sequence, PayloadOf(c, s.k2, payloadType, resp, iv));
    OpenUndoesSealIff(c, s.k1, s.k2, payloadType, s.remoteId, sequence, resp, iv);
    assert Msg.SerializeRmcp(Msg.RMCP_CLASS_IPMI, packet)[4..] == packet;
  }

  /** Inside session `id`, with any mix of encryption and authentication. */
  lemma OverSealed<M(!new)>(
    c: Crypto, host: Host<M>, sessions: Sessions, world: World<M>, draws: Draws,
    id: uint32, payloadType: byte, sequence: uint32, req: Msg.Request, iv: Block)
    requires req.Valid() && id != 0 && id in sessions && sessions[id].id == id && |sessions[id].k2| >= BLOCK_SIZE
    requires payloadType % 0x40 == PAYLOAD_IPMI && draws.iv.Some?
    requires PayloadSize(payloadType, 7 + |req.data|) < 0x1_0000
    requires PayloadSize(payloadType, 8 + |Expected(host, world, req).0.data|) < 0x1_0000
    ensures var s := sessions[id];
      var step := HandleDatagram(c, host, sessions, world, RequestSealed(c, s, payloadType, sequence, req, iv), draws);
      (ReadSealed(c, s, step.reply), step.world) == (Some(Expected(host, world, req).0), Expected(host, world, req).1)
  {
    var s := sessions[id];
    var msg := Msg.BuildRequest(req);
    AnswerReads(host, world, req);
    SealedStep(c, host, sessions, world, draws, id, payloadType, sequence, msg, iv);
    ReadsSealed(c, s, payloadType, Answer(host, world, Msg.ParseMessage(msg).value).0, draws.iv.value, Next(s.outbound));
  }

  lemma WireFirstByte(c: Crypto, k1: Bytes, payloadType: byte, id: uint32, sequence: uint32, payload: Bytes)
    ensures var w := Wire(c, k1, payloadType, id, sequence, payload); |w| > 0 && w[0] == Msg.AUTH_TYPE_RMCP_PLUS
  {
    SealShape(c, k1, Packet(payloadType, id, sequence, payload));
  }

  // ----- the VM protocol -----

  function RequestVm(req: Msg.Request): Bytes
    requires req.Valid()
  {
    VmProtocol.BuildRequest(VmProtocol.Request(req.seqLun, req.netFn, req.lun, req.cmd, req.data))
  }

  function ReadVm(payload: Bytes): Option<Msg.Response> {
    match VmProtocol.ParseRequest(payload)
    case Err(_) => None
    case Ok(r) => if r.data == [] then None else Some(Msg.Response(r.netFn, r.cmd, r.data[0], r.data[1..], r.seqNo))
  }

  lemma VmResponseReads(seqLun: byte, netFn: byte, lun: byte, cmd: byte, cc: byte, data: Bytes)
    ensures ReadVm(VmProtocol.BuildResponse(seqLun, netFn, lun, cmd, cc, data)) == Some(Msg.Response(netFn % 0x40, cmd, cc, data, seqLun))
  {
    VmProtocol.ResponseParses(seqLun, netFn, lun, cmd, cc, data);
    assert ([cc] + data)[1..] == data;
  }

  function VmAnswer<M(!new)>(host: Host<M>, world: World<M>, req: Msg.Request): Bytes
    requires req.Valid()
  {
    var r := host.commands(world, req.netFn, req.cmd, req.data);
    VmProtocol.BuildResponse(req.seqLun, Msg.ResponseNetFn(req.netFn), req.lun, req.cmd, r.code, r.data)
  }

  lemma VmReplies<M(!new)>(host: Host<M>, world: World<M>, caps: byte, req: Msg.Request)
    requires req.Valid()
    ensures var f := Vm.Posted(VmProtocol.MSG_CHAR, RequestVm(req));
      && Vm.Replies(host.commands, Vm.Vm(world, caps, []), [f]) == [Vm.Posted(VmProtocol.MSG_CHAR, VmAnswer(host, world, req))]
      && Vm.HandleAll(host.commands, Vm.Vm(world, caps, []), [f]).world == Expected(host, world, req).1
  {
    var vm := Vm.Vm(world, caps, []);
    var f := Vm.Posted(VmProtocol.MSG_CHAR, RequestVm(req));
    VmProtocol.RequestRoundTrip(VmProtocol.Request(req.seqLun, req.netFn, req.lun, req.cmd, req.data));
    assert [f][1..] == [];
    assert Vm.ReplyTo(host.commands, vm, f) == [Vm.Posted(VmProtocol.MSG_CHAR, VmAnswer(host, world, req))];
  }

  lemma VmConversation<M(!new)>(
    host: Host<M>, world: World<M>, caps: byte, payload: Bytes, input: seq<Vm.ReadEvent>, back: seq<Vm.ReadEvent>)
    requires Vm.Delivers(input, Vm.EncodeFrame(VmProtocol.MSG_CHAR, payload))
    requires Vm.Delivers(back, Vm.Connection(host.commands, Vm.Vm(world, caps, []), input).0.output)
    ensures var vm, f := Vm.Vm(world, caps, []), Vm.Posted(VmProtocol.MSG_CHAR, payload);
      && Vm.Connection(host.commands, vm, input).0 == Vm.HandleAll(host.commands, vm, [f])
      && Vm.ReadAll(back) == (Vm.Replies(host.commands, vm, [f]), Vm.Eof)
  {
    var f := Vm.Posted(VmProtocol.MSG_CHAR, payload);
    Vm.OneFrameEncodes(f);
    Vm.ConnectionFolds(host.commands, Vm.Vm(world, caps, []), [f], input);
    Vm.ConversationRoundTrip(host.commands, world, caps, [f], input, back);
  }

  /** A peer that reads one IPMI frame holding `resp`, and then the end of the stream. */
  predicate ReadsOneResponse(read: (seq<Vm.Posted>, Vm.Frame), resp: Msg.Response) {
    && read.1 == Vm.Eof && |read.0| == 1
    && read.0[0].terminator == VmProtocol.MSG_CHAR
    && ReadVm(read.0[0].payload) == Some(resp)
  }

  lemma VmReplyReads<M(!new)>(host: Host<M>, world: World<M>, req: Msg.Request)
    requires req.Valid()
    ensures ReadsOneResponse(([Vm.Posted(VmProtocol.MSG_CHAR, VmAnswer(host, world, req))], Vm.Eof), Expected(host, world, req).0)
  {
    var r := host.commands(world, req.netFn, req.cmd, req.data);
    VmResponseReads(req.seqLun, Msg.ResponseNetFn(req.netFn), req.lun, req.cmd, r.code, r.data);
  }

  /** One request over a fresh VM connection, however both streams are cut into reads. */
  lemma OverVm<M(!new)>(
    host: Host<M>, world: World<M>, caps: byte, req: Msg.Request, input: seq<Vm.ReadEvent>, back: seq<Vm.ReadEvent>)
    requires req.Valid()
    requires Vm.Delivers(input, Vm.EncodeFrame(VmProtocol.MSG_CHAR, RequestVm(req)))
    requires Vm.Delivers(back, Vm.Connection(host.commands, Vm.Vm(world, caps, []), input).0.output)
    ensures Vm.Connection(host.commands, Vm.Vm(world, caps, []), input).0.world == Expected(host, world, req).1
    ensures ReadsOneResponse(Vm.ReadAll(back), Expected(host, world, req).0)
  {
    VmConversation(host, world, caps, RequestVm(req), input, back);
    VmReplies(host, world, caps, req);
    VmReplyReads(host, world, req);
  }

  // ----- together -----

  /** The same request from the same state over all four transports: same completion code, same
      data, the response network function and the request's sequence byte, and the same state
      afterwards, for requests and responses that fit each transport's length field. */
  lemma TransportsAgree<M(!new)>(
    c: Crypto, host: Host<M>, sessions: Sessions, world: World<M>, draws: Draws,
    header: Msg.SessionHeader, id: uint32, payloadType: byte, sequence: uint32, iv: Block,
    caps: byte, input: seq<Vm.ReadEvent>, back: seq<Vm.ReadEvent>, req: Msg.Request)
    requires req.Valid() && header.authType != Msg.AUTH_TYPE_RMCP_PLUS
    requires id != 0 && id in sessions && sessions[id].id == id && |sessions[id].k2| >= BLOCK_SIZE
    requires payloadType % 0x40 == PAYLOAD_IPMI && draws.iv.Some?
    requires 7 + |req.data| < 0x100 && 8 + |Expected(host, world, req).0.data| < 0x100
    requires Vm.Delivers(input, Vm.EncodeFrame(VmProtocol.MSG_CHAR, RequestVm(req)))
    requires Vm.Delivers(back, Vm.Connection(host.commands, Vm.Vm(world, caps, []), input).0.output)
    ensures var v15 := HandleDatagram(c, host, sessions, world, Request15(c, header, host.pass, req), draws);
      var clear := HandleDatagram(c, host, sessions, world, RequestClear(req), draws);
      var sealed := HandleDatagram(c, host, sessions, world, RequestSealed(c, sessions[id], payloadType, sequence, req, iv), draws);
      var vm := Vm.Connection(host.commands, Vm.Vm(world, caps, []), input).0;
      && v15.world == clear.world == sealed.world == vm.world
      && Read15(v15.reply) == ReadClear(clear.reply) == ReadSealed(c, sessions[id], sealed.reply)
           == Some(Expected(host, world, req).0)
      && ReadsOneResponse(Vm.ReadAll(back), Expected(host, world, req).0)
  {
    Over15(c, host, sessions, world, draws, header, req);
    OverClear(c, host, sessions, world, draws, req);
    OverSealed(c, host, sessions, world, draws, id, payloadType, sequence, req, iv);
    OverVm(host, world, caps, req, input, back);
  }
}
