/**
 The UDP server of internal/ipmi/server.go: dispatch of one datagram, and the loop that
 serves a sequence of them.
 */
module IpmiServer {
  import opened Bytes
  import opened Wrappers
  import opened Crypto
  import opened RmcpPlus
  import opened RmcpPlusServer
  import Msg = IpmiMessage

  // ----- what a datagram does -----

  const ASF_IANA: Bytes := [0x00, 0x00, 0x11, 0xBE]

  function Pong(tag: byte): (r: Bytes)
    ensures |r| == 28
  {
    [Msg.RMCP_VERSION_1, 0x00, 0xFF, Msg.RMCP_CLASS_ASF] + ASF_IANA + [0x40, tag, 0x00, 0x10]
    + ASF_IANA + [0, 0, 0, 0] + [0x81, 0x00] + [0, 0, 0, 0, 0, 0]
  }

  function AsfPing(payload: Bytes): Reply {
    if |payload| < 8 || payload[4] != 0x80 then Failed else Sent(Pong(payload[5]))
  }

  function Framed(reply: Reply): Reply {
    match reply
    case Sent(data) => Sent(Msg.SerializeRmcp(Msg.RMCP_CLASS_IPMI, data))
    case _ => reply
  }

  function Ipmi15<M(!new)>(c: Crypto, host: Host<M>, world: World<M>, payload: Bytes): (Reply, World<M>) {
    match Msg.ParseIpmi15(payload)
    case Err(_) => (Failed, world)
    case Ok((_, None)) => (Failed, world)
    case Ok((header, Some(msg))) =>
      var (resp, world') := Answer(host, world, msg);
      (Sent(Msg.SerializeIpmi15(c, header, resp, host.pass)), world')
  }

  function HandleDatagram<M(!new)>(c: Crypto, host: Host<M>, sessions: Sessions, world: World<M>, data: Bytes, draws: Draws): Step<M> {
    match Msg.ParseRmcp(data)
    case Err(_) => Step(Failed, sessions, world)
    case Ok((cls, payload)) =>
      if cls == Msg.RMCP_CLASS_ASF then
        Step(AsfPing(payload), sessions, world)
      else if cls != Msg.RMCP_CLASS_IPMI then
        Step(Failed, sessions, world)
      else if payload != [] && payload[0] == Msg.AUTH_TYPE_RMCP_PLUS then
        var step := HandleMessage(c, host, sessions, world, payload, draws);
        step.(reply := Framed(step.reply))
      else
        var (reply, world') := Ipmi15(c, host, world, payload);
        Step(Framed(reply), sessions, world')
  }

  /** How the dispatcher hands an RMCP+ packet on. */
  lemma DatagramIsPacket<M(!new)>(
    c: Crypto, host: Host<M>, sessions: Sessions, world: World<M>, packet: Bytes, draws: Draws)
    requires |packet| >= HEADER_SIZE && packet[0] == Msg.AUTH_TYPE_RMCP_PLUS
    ensures var step := HandleDatagram(c, host, sessions, world, Msg.SerializeRmcp(Msg.RMCP_CLASS_IPMI, packet), draws);
      var inner := HandleMessage(c, host, sessions, world, packet, draws);
      && step.sessions == inner.sessions && step.world == inner.world
      && step.reply == Framed(inner.reply)
      && (inner.reply.Sent? ==> |step.reply.data| >= 4 && step.reply.data[4..] == inner.reply.data)
  {
    Msg.RmcpRoundTrip(Msg.RMCP_CLASS_IPMI, packet);
  }

  // ----- ASF, and what is not handled -----

  /** A presence ping is answered with a pong that echoes its tag and announces IPMI. */
  lemma PingPong<M(!new)>(c: Crypto, host: Host<M>, sessions: Sessions, world: World<M>, data: Bytes, draws: Draws)
    requires |data| >= 12 && data[0] == 0x06 && data[3] == 0x06
    ensures HandleDatagram(c, host, sessions, world, data, draws) ==
      Step(
        if data[8] == 0x80 then
          Sent([0x06, 0x00, 0xFF, 0x06, 0x00, 0x00, 0x11, 0xBE, 0x40, data[9], 0x00, 0x10,
                0x00, 0x00, 0x11, 0xBE, 0, 0, 0, 0, 0x81, 0x00, 0, 0, 0, 0, 0, 0])
        else Failed,
        sessions, world)
  {
    var payload := data[4..];
    assert payload[4] == data[8] && payload[5] == data[9];
    assert Pong(data[9]) == [0x06, 0x00, 0xFF, 0x06, 0x00, 0x00, 0x11, 0xBE, 0x40, data[9], 0x00, 0x10,
                0x00, 0x00, 0x11, 0xBE, 0, 0, 0, 0, 0x81, 0x00, 0, 0, 0, 0, 0, 0];
    assert AsfPing(payload) == if data[8] == 0x80 then Sent(Pong(data[9])) else Failed;
  }

  /** Datagrams that are not RMCP version 6, or of a class other than ASF and IPMI, and pings cut
      short, fail and change nothing. */
  lemma NotHandled<M(!new)>(c: Crypto, host: Host<M>, sessions: Sessions, world: World<M>, data: Bytes, draws: Draws)
    requires |data| < 4 || data[0] != 0x06 || (data[3] != 0x06 && data[3] != 0x07) || (data[3] == 0x06 && |data| < 12)
    ensures HandleDatagram(c, host, sessions, world, data, draws) == Step(Failed, sessions, world)
  {
  }

  /** A v1.5 message reaches the commands and its answer goes back under the header it came with. */
  lemma V15Answer<M(!new)>(c: Crypto, host: Host<M>, sessions: Sessions, world: World<M>, data: Bytes, draws: Draws)
    requires |data| >= 4 && data[0] == 0x06 && data[3] == 0x07 && (|data| == 4 || data[4] != 0x06)
    ensures var step := HandleDatagram(c, host, sessions, world, data, draws);
      && step.sessions == sessions
      && match Msg.ParseIpmi15(data[4..])
         case Err(_) => step.reply == Failed && step.world == world
         case Ok((_, None)) => step.reply == Failed && step.world == world
         case Ok((header, Some(msg))) =>
           && step.reply == Sent(Msg.SerializeRmcp(0x07, Msg.SerializeIpmi15(c, header, Answer(host, world, msg).0, host.pass)))
           && step.world == Answer(host, world, msg).1
  {
  }

  // ----- runs -----

  datatype Input = Input(data: Bytes, draws: Draws)

  datatype ServerState<M> = ServerState(sessions: Sessions, world: World<M>, stopped: bool)

  function ServeOne<M(!new)>(c: Crypto, host: Host<M>, st: ServerState<M>, input: Input): (ServerState<M>, Reply) {
    if st.stopped then
      (st, Failed)
    else
      var step := HandleDatagram(c, host, st.sessions, st.world, input.data, input.draws);
      (ServerState(step.sessions, step.world, step.reply.Panicked?), step.reply)
  }

  function Serve<M(!new)>(c: Crypto, host: Host<M>, st: ServerState<M>, inputs: seq<Input>): (r: (ServerState<M>, seq<Reply>))
    ensures |r.1| == |inputs|
    decreases |inputs|
  {
    if inputs == [] then
      (st, [])
    else
      var before := Serve(c, host, st, inputs[..|inputs| - 1]);
      var (st', reply) := ServeOne(c, host, before.0, inputs[|inputs| - 1]);
      (st', before.1 + [reply])
  }

  lemma ServeNext<M(!new)>(c: Crypto, host: Host<M>, st: ServerState<M>, inputs: seq<Input>, i: nat)
    requires i < |inputs|
    ensures var before := Serve(c, host, st, inputs[..i]);
      var (st', reply) := ServeOne(c, host, before.0, inputs[i]);
      Serve(c, host, st, inputs[..i + 1]) == (st', before.1 + [reply])
  {
    assert inputs[..i + 1][..i] == inputs[..i];
  }

  // ----- the server -----

  const READ_BUFFER := 1024

  /** A longer datagram arrives cut to the size of the buffer it is read into. */
  function Received(input: Input): Input {
    if |input.data| > READ_BUFFER then input.(data := input.data[..READ_BUFFER]) else input
  }

  function ReceivedAll(inputs: seq<Input>): (r: seq<Input>)
    ensures |r| == |inputs|
    ensures forall i :: 0 <= i < |inputs| ==> r[i] == Received(inputs[i])
  {
    seq(|inputs|, i requires 0 <= i < |inputs| => Received(inputs[i]))
  }

  class Server<M(!new)> {
    const crypto: Crypto
    const host: Host<M>
    const sessionMgr: SessionManager
    var world: World<M>

    ghost predicate Valid()
      reads this, sessionMgr
    {
      sessionMgr.Valid()
    }

    constructor (crypto: Crypto, host: Host<M>, world: World<M>)
      ensures Valid() && fresh(sessionMgr) && sessionMgr.sessions == map[]
      ensures this.crypto == crypto && this.host == host && this.world == world
    {
      this.crypto, this.host, this.world := crypto, host, world;
      sessionMgr := new SessionManager();
    }

    method HandleMessage(data: Bytes, draws: Draws) returns (reply: Reply)
      requires Valid()
      modifies this, sessionMgr, sessionMgr.sessions.Values
      ensures Valid()
      ensures Step(reply, sessionMgr.Views(), world)
           == HandleDatagram(crypto, host, old(sessionMgr.Views()), old(world), data, draws)
      ensures fresh(sessionMgr.sessions.Values - old(sessionMgr.sessions.Values))
    {
      var parsed := Msg.ParseRmcp(data);
      if parsed.Err? {
        return Failed;
      }
      var (cls, payload) := parsed.value;
      if cls == Msg.RMCP_CLASS_ASF {
        return AsfPing(payload);
      }
      if cls != Msg.RMCP_CLASS_IPMI {
        return Failed;
      }
      if |payload| > 0 && payload[0] == Msg.AUTH_TYPE_RMCP_PLUS {
        var inner, after := HandleRMCPPlusMessage(crypto, host, payload, sessionMgr, world, draws);
        world := after;
        return Framed(inner);
      }
      var (inner, after) := Ipmi15(crypto, host, world, payload);
      world := after;
      return Framed(inner);
    }

    /** One turn of the receive loop, which a panic has ended for good. */
    method ServeInput(input: Input, stopped: bool) returns (reply: Reply, nowStopped: bool)
      requires Valid()
      modifies this, sessionMgr, sessionMgr.sessions.Values
      ensures Valid()
      ensures (ServerState(sessionMgr.Views(), world, nowStopped), reply)
           == ServeOne(crypto, host, ServerState(old(sessionMgr.Views()), old(world), stopped), Received(input))
      ensures fresh(sessionMgr.sessions.Values - old(sessionMgr.sessions.Values))
    {
      if stopped {
        return Failed, true;
      }
      var n := if |input.data| > READ_BUFFER then READ_BUFFER else |input.data|;
      var data := input.data[..n];
      assert Input(data, input.draws) == Received(input);
      reply := HandleMessage(data, input.draws);
      nowStopped := reply.Panicked?;
    }

    /** The receive loop; an input stands for one datagram sent and the random bytes drawn for it. */
    method ServeAll(inputs: seq<Input>) returns (replies: seq<Reply>, stopped: bool)
      requires Valid()
      modifies this, sessionMgr, sessionMgr.sessions.Values
      ensures Valid()
      ensures (ServerState(sessionMgr.Views(), world, stopped), replies)
           == Serve(crypto, host, ServerState(old(sessionMgr.Views()), old(world), false), ReceivedAll(inputs))
    {
      replies, stopped := [], false;
      ghost var start := ServerState(sessionMgr.Views(), world, false);
      ghost var received := ReceivedAll(inputs);
      assert received[..0] == [];
      for i := 0 to |inputs|
        invariant Valid()
        invariant fresh(sessionMgr.sessions.Values - old(sessionMgr.sessions.Values))
        invariant (ServerState(sessionMgr.Views(), world, stopped), replies) == Serve(crypto, host, start, received[..i])
      {
        ServeNext(crypto, host, start, received, i);
        var reply;
        reply, stopped := ServeInput(inputs[i], stopped);
        replies := replies + [reply];
      }
      assert received[..|inputs|] == received;
    }
  }
}
