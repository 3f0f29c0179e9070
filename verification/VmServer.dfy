/**
 The VM protocol server of internal/ipmi/vm_server.go: reading frames off a byte stream, and
 one connection's loop over them.
 */
module VmServer {
  import opened Bytes
  import opened Wrappers
  import opened VmProtocol
  import opened RmcpPlus
  import Msg = IpmiMessage

  // ----- the stream -----

  /** What one conn.Read of a single byte yields. The end of the list is the end of the stream. */
  datatype ReadEvent = Got(b: byte) | Nothing | ReadError

  /** A frame off the stream, or why there is none. */
  datatype Frame = Frame(terminator: byte, payload: Bytes) | Eof | Broken | BadEscape

  function EndOf(terminator: byte, buf: Bytes): Frame {
    match Unescape(buf)
    case None => BadEscape
    case Some(payload) => Frame(terminator, payload)
  }

  /** The next frame after `buf` has been accumulated, and what is left of the stream. */
  function NextFrame(buf: Bytes, input: seq<ReadEvent>): (Frame, seq<ReadEvent>)
    decreases |input|
  {
    if input == [] then
      (Eof, [])
    else
      match input[0]
      case ReadError => (Broken, input[1..])
      case Nothing => NextFrame(buf, input[1..])
      case Got(b) =>
        if IsTerminator(b) then (EndOf(b, buf), input[1..]) else NextFrame(buf + [b], input[1..])
  }

  lemma {:induction false} NextFrameShortens(buf: Bytes, input: seq<ReadEvent>)
    ensures NextFrame(buf, input).0 != Eof ==> |NextFrame(buf, input).1| < |input|
    decreases |input|
  {
    if input != [] {
      NextFrameShortens(buf, input[1..]);
      if input[0].Got? {
        NextFrameShortens(buf + [input[0].b], input[1..]);
      }
    }
  }

  // ----- the server -----

  datatype Vm<M> = Vm(world: World<M>, caps: byte, output: Bytes)

  function EncodeFrame(terminator: byte, payload: Bytes): Bytes {
    Escape(payload) + [terminator]
  }

  function ControlCommand<M(!new)>(vm: Vm<M>, data: Bytes): Vm<M> {
    match ParseControlCommand(data)
    case None => vm
    case Some((cmd, rest)) =>
      if cmd == VM_CMD_CAPABILITIES then
        vm.(caps := if rest == [] then 0 else rest[0],
            output := vm.output + EncodeFrame(CMD_CHAR, BuildControlCommand(VM_CMD_NO_ATTN, [])))
      else
        vm
  }

  function IpmiMessage<M(!new)>(commands: Commands<M>, vm: Vm<M>, data: Bytes): Vm<M> {
    match ParseRequest(data)
    case Err(_) => vm
    case Ok(req) =>
      var r := commands(vm.world, req.netFn, req.cmd, req.data);
      var response := BuildResponse(req.seqNo, Msg.ResponseNetFn(req.netFn), req.lun, req.cmd, r.code, r.data);
      vm.(world := r.world, output := vm.output + EncodeFrame(MSG_CHAR, response))
  }

  function HandleFrame<M(!new)>(commands: Commands<M>, vm: Vm<M>, terminator: byte, payload: Bytes): Vm<M> {
    if terminator == CMD_CHAR then ControlCommand(vm, payload)
    else if terminator == MSG_CHAR then IpmiMessage(commands, vm, payload)
    else vm
  }

  /** One connection: frames until the stream ends; true when it ended at EOF. */
  function Connection<M(!new)>(commands: Commands<M>, vm: Vm<M>, input: seq<ReadEvent>): (Vm<M>, bool)
    decreases |input|
  {
    NextFrameShortens([], input);
    var (frame, rest) := NextFrame([], input);
    match frame
    case Eof => (vm, true)
    case Broken => (vm, false)
    case BadEscape => (vm, false)
    case Frame(terminator, payload) => Connection(commands, HandleFrame(commands, vm, terminator, payload), rest)
  }

  class Conn {
    var input: seq<ReadEvent>
    var output: Bytes

    method Read() returns (e: Option<ReadEvent>)
      modifies this`input
      ensures old(input) == [] ==> e == None && input == []
      ensures old(input) != [] ==> e == Some(old(input)[0]) && input == old(input)[1..]
    {
      if input == [] {
        return None;
      }
      e := Some(input[0]);
      input := input[1..];
    }

    method Write(data: Bytes)
      modifies this`output
      ensures output == old(output) + data
    {
      output := output + data;
    }
  }

  method ReadMessage(conn: Conn) returns (frame: Frame)
    modifies conn`input
    ensures (frame, conn.input) == NextFrame([], old(conn.input))
  {
    var buf: Bytes := [];
    while true
      invariant NextFrame([], old(conn.input)) == NextFrame(buf, conn.input)
      decreases |conn.input|
    {
      var e := conn.Read();
      if e.None? {
        return Eof;
      }
      match e.value
      case ReadError => return Broken;
      case Nothing =>
      case Got(b) =>
        if b == MSG_CHAR || b == CMD_CHAR {
          var unescaped := VmUnescapeBytes(buf);
          return if unescaped.None? then BadEscape else Frame(b, unescaped.value);
        }
        buf := buf + [b];
    }
  }

  class VMServer<M(!new)> {
    const commands: Commands<M>
    var world: World<M>
    var vmCaps: byte

    constructor (commands: Commands<M>, world: World<M>)
      ensures this.commands == commands && this.world == world && vmCaps == 0
    {
      this.commands, this.world, vmCaps := commands, world, 0;
    }

    ghost function View(conn: Conn): Vm<M>
      reads this, conn
    {
      Vm(world, vmCaps, conn.output)
    }

    method HandleControlCommand(data: Bytes, conn: Conn)
      modifies this`vmCaps, conn`output
      ensures View(conn) == ControlCommand(old(View(conn)), data)
    {
      var parsed := ParseControlCommand(data);
      if parsed.None? {
        return;
      }
      var (cmd, rest) := parsed.value;
      if cmd == VM_CMD_CAPABILITIES {
        vmCaps := if |rest| > 0 then rest[0] else 0;
        var escaped := VmEscapeBytes(BuildControlCommand(VM_CMD_NO_ATTN, []));
        conn.Write(escaped + [CMD_CHAR]);
      }
    }

    method HandleIPMIMsg(data: Bytes, conn: Conn)
      modifies this`world, conn`output
      ensures View(conn) == IpmiMessage(commands, old(View(conn)), data)
    {
      var parsed := VmParseIPMIRequest(data);
      if parsed.Err? {
        return;
      }
      var req := parsed.value;
      var msg := Msg.Message(0, NetFnLun(req.netFn, req.lun), 0, 0, 0, req.cmd, req.data);
      assert msg.GetNetFn() == req.netFn;
      var r := commands(world, msg.GetNetFn(), msg.command, msg.data);
      world := r.world;
      var response := VmBuildIPMIResponse(req.seqNo, Msg.ResponseNetFn(req.netFn), req.lun, req.cmd, r.code, r.data);
      var escaped := VmEscapeBytes(response);
      conn.Write(escaped + [MSG_CHAR]);
    }

    method HandleConnection(conn: Conn) returns (ok: bool)
      modifies this`world, this`vmCaps, conn
      ensures (View(conn), ok) == Connection(commands, old(View(conn)), old(conn.input))
    {
      while true
        invariant Connection(commands, old(View(conn)), old(conn.input)) == Connection(commands, View(conn), conn.input)
        decreases |conn.input|
      {
        NextFrameShortens([], conn.input);
        var frame := ReadMessage(conn);
        match frame
        case Eof => return true;
        case Broken => return false;
        case BadEscape => return false;
        case Frame(terminator, payload) =>
          if terminator == CMD_CHAR {
            HandleControlCommand(payload, conn);
          } else if terminator == MSG_CHAR {
            HandleIPMIMsg(payload, conn);
          }
      }
    }
  }

  // ----- framing round trip -----

  datatype Posted = Posted(terminator: byte, payload: Bytes)
  {
    predicate Valid() {
      IsTerminator(terminator)
    }
  }

  ghost predicate AllValid(frames: seq<Posted>) {
    forall f :: f in frames ==> f.Valid()
  }

  function EncodeAll(frames: seq<Posted>): Bytes {
    if frames == [] then [] else EncodeFrame(frames[0].terminator, frames[0].payload) + EncodeAll(frames[1..])
  }

  /** `input` delivers `bytes` one by one, with empty reads anywhere, and then ends. */
  ghost predicate Delivers(input: seq<ReadEvent>, bytes: Bytes)
    decreases |input|
  {
    if input == [] then bytes == []
    else if input[0].Nothing? then Delivers(input[1..], bytes)
    else input[0].Got? && bytes != [] && input[0].b == bytes[0] && Delivers(input[1..], bytes[1..])
  }

  /** Reading until a frame has all of its escaped bytes and its terminator. */
  lemma {:induction false} ReadsOneFrame(input: seq<ReadEvent>, buf: Bytes, body: Bytes, terminator: byte, rest: Bytes)
    requires IsTerminator(terminator) && (forall b | b in body :: !IsTerminator(b))
    requires Delivers(input, body + [terminator] + rest)
    ensures NextFrame(buf, input).0 == EndOf(terminator, buf + body)
    ensures Delivers(NextFrame(buf, input).1, rest)
    ensures |NextFrame(buf, input).1| < |input|
    decreases |input|
  {
    var bytes := body + [terminator] + rest;
    if input != [] {
      if input[0].Nothing? {
        ReadsOneFrame(input[1..], buf, body, terminator, rest);
      } else if body == [] {
        assert bytes[1..] == rest;
        assert buf + body == buf;
      } else {
        assert bytes[1..] == body[1..] + [terminator] + rest;
        ReadsOneFrame(input[1..], buf + [body[0]], body[1..], terminator, rest);
        assert buf + [body[0]] + body[1..] == buf + body;
      }
    }
  }

  lemma ReadsEof(input: seq<ReadEvent>, buf: Bytes)
    requires Delivers(input, [])
    ensures NextFrame(buf, input) == (Eof, [])
    decreases |input|
  {
    if input != [] {
      ReadsEof(input[1..], buf);
    }
  }

  /** Calling ReadMessage until it fails: the frames read and how the stream ended. */
  function ReadAll(input: seq<ReadEvent>): (seq<Posted>, Frame)
    decreases |input|
  {
    NextFrameShortens([], input);
    var (frame, rest) := NextFrame([], input);
    if frame.Frame? then
      var (frames, end) := ReadAll(rest);
      ([Posted(frame.terminator, frame.payload)] + frames, end)
    else
      ([], frame)
  }

  /** Every list of frames, however its encoding is cut into reads, is read back in order, up to
      a clean end of stream. */
  lemma {:induction false} FramingRoundTrip(frames: seq<Posted>, input: seq<ReadEvent>)
    requires AllValid(frames) && Delivers(input, EncodeAll(frames))
    ensures ReadAll(input) == (frames, Eof)
    decreases |frames|
  {
    if frames == [] {
      ReadsEof(input, []);
    } else {
      var f, rest := frames[0], EncodeAll(frames[1..]);
      EscapeRoundTrip(f.payload);
      assert f in frames && f.Valid();
      assert EncodeAll(frames) == Escape(f.payload) + [f.terminator] + rest;
      ReadsOneFrame(input, [], Escape(f.payload), f.terminator, rest);
      assert [] + Escape(f.payload) == Escape(f.payload);
      FramingRoundTrip(frames[1..], NextFrame([], input).1);
      assert frames == [f] + frames[1..];
    }
  }

  // ----- a connection is the fold of its frames -----

  function HandleAll<M(!new)>(commands: Commands<M>, vm: Vm<M>, frames: seq<Posted>): Vm<M>
    decreases |frames|
  {
    if frames == [] then vm
    else HandleAll(commands, HandleFrame(commands, vm, frames[0].terminator, frames[0].payload), frames[1..])
  }

  /** The replies to a list of frames, as frames. */
  function ReplyTo<M(!new)>(commands: Commands<M>, vm: Vm<M>, f: Posted): seq<Posted> {
    if f.terminator == CMD_CHAR then
      if f.payload != [] && f.payload[0] == VM_CMD_CAPABILITIES then [Posted(CMD_CHAR, [VM_CMD_NO_ATTN])] else []
    else
      match ParseRequest(f.payload)
      case Err(_) => []
      case Ok(req) =>
        var r := commands(vm.world, req.netFn, req.cmd, req.data);
        [Posted(MSG_CHAR, BuildResponse(req.seqNo, Msg.ResponseNetFn(req.netFn), req.lun, req.cmd, r.code, r.data))]
  }

  function Replies<M(!new)>(commands: Commands<M>, vm: Vm<M>, frames: seq<Posted>): seq<Posted>
    decreases |frames|
  {
    if frames == [] then []
    else
      ReplyTo(commands, vm, frames[0])
      + Replies(commands, HandleFrame(commands, vm, frames[0].terminator, frames[0].payload), frames[1..])
  }

  lemma {:induction false} ConnectionFolds<M(!new)>(commands: Commands<M>, vm: Vm<M>, frames: seq<Posted>, input: seq<ReadEvent>)
    requires AllValid(frames) && Delivers(input, EncodeAll(frames))
    ensures Connection(commands, vm, input) == (HandleAll(commands, vm, frames), true)
    decreases |frames|
  {
    if frames == [] {
      ReadsEof(input, []);
    } else {
      var f, rest := frames[0], EncodeAll(frames[1..]);
      EscapeRoundTrip(f.payload);
      assert f in frames && f.Valid();
      assert EncodeAll(frames) == Escape(f.payload) + [f.terminator] + rest;
      ReadsOneFrame(input, [], Escape(f.payload), f.terminator, rest);
      assert [] + Escape(f.payload) == Escape(f.payload);
      ConnectionFolds(commands, HandleFrame(commands, vm, f.terminator, f.payload), frames[1..], NextFrame([], input).1);
    }
  }

  lemma {:induction false} EncodeAllAppend(a: seq<Posted>, b: seq<Posted>)
    ensures EncodeAll(a + b) == EncodeAll(a) + EncodeAll(b)
    decreases |a|
  {
    if a == [] {
      assert a + b == b;
    } else {
      assert (a + b)[1..] == a[1..] + b;
      EncodeAllAppend(a[1..], b);
    }
  }

  lemma OneFrameEncodes(f: Posted)
    ensures EncodeAll([f]) == EncodeFrame(f.terminator, f.payload)
  {
    assert [f][1..] == [];
  }

  lemma ReplyIsEncoded<M(!new)>(commands: Commands<M>, vm: Vm<M>, f: Posted)
    requires f.Valid()
    ensures HandleFrame(commands, vm, f.terminator, f.payload).output == vm.output + EncodeAll(ReplyTo(commands, vm, f))
    ensures AllValid(ReplyTo(commands, vm, f))
  {
    var replies := ReplyTo(commands, vm, f);
    if replies != [] {
      OneFrameEncodes(replies[0]);
      assert BuildControlCommand(VM_CMD_NO_ATTN, []) == [VM_CMD_NO_ATTN];
    } else {
      assert vm.output + [] == vm.output;
    }
  }

  lemma {:induction false} OutputIsReplies<M(!new)>(commands: Commands<M>, vm: Vm<M>, frames: seq<Posted>)
    requires AllValid(frames)
    ensures HandleAll(commands, vm, frames).output == vm.output + EncodeAll(Replies(commands, vm, frames))
    ensures AllValid(Replies(commands, vm, frames))
    decreases |frames|
  {
    if frames != [] {
      var f := frames[0];
      var vm' := HandleFrame(commands, vm, f.terminator, f.payload);
      ReplyIsEncoded(commands, vm, f);
      OutputIsReplies(commands, vm', frames[1..]);
      var first, rest := ReplyTo(commands, vm, f), Replies(commands, vm', frames[1..]);
      RepliesJoin(vm.output, first, rest);
      assert Replies(commands, vm, frames) == first + rest;
    }
  }

  lemma RepliesJoin(output: Bytes, a: seq<Posted>, b: seq<Posted>)
    requires AllValid(a) && AllValid(b)
    ensures AllValid(a + b)
    ensures output + EncodeAll(a) + EncodeAll(b) == output + EncodeAll(a + b)
  {
    EncodeAllAppend(a, b);
  }

  /** A peer's view of a whole connection: whatever frames it sends and however both streams are
      cut into reads, it reads back exactly the replies to its frames, in order. */
  lemma ConversationRoundTrip<M(!new)>(
    commands: Commands<M>, world: World<M>, caps: byte, frames: seq<Posted>, input: seq<ReadEvent>, back: seq<ReadEvent>)
    requires AllValid(frames) && Delivers(input, EncodeAll(frames))
    requires Delivers(back, Connection(commands, Vm(world, caps, []), input).0.output)
    ensures Connection(commands, Vm(world, caps, []), input).1
    ensures ReadAll(back) == (Replies(commands, Vm(world, caps, []), frames), Eof)
  {
    var vm := Vm(world, caps, []);
    ConnectionFolds(commands, vm, frames, input);
    OutputIsReplies(commands, vm, frames);
    assert [] + EncodeAll(Replies(commands, vm, frames)) == EncodeAll(Replies(commands, vm, frames));
    FramingRoundTrip(Replies(commands, vm, frames), back);
  }

  // ----- control commands and ends of connections -----

  /** A capabilities command is remembered and answered with a NOATTN command; every other one is
      ignored. */
  lemma ControlCommands<M(!new)>(commands: Commands<M>, vm: Vm<M>, payload: Bytes)
    ensures var vm' := HandleFrame(commands, vm, 0xA1, payload);
      && vm'.world == vm.world
      && (payload != [] && payload[0] == 0x08 ==>
            vm'.caps == (if |payload| > 1 then payload[1] else 0) && vm'.output == vm.output + [0x00, 0xA1])
      && (payload == [] || payload[0] != 0x08 ==> vm' == vm)
  {
    EscapeOfByte(0x00);
    assert BuildControlCommand(VM_CMD_NO_ATTN, []) == [0x00];
    assert payload != [] ==> (payload[1..] == [] <==> |payload| == 1);
  }

  /** A message that does not parse is dropped without a reply. */
  lemma BadMessageDropped<M(!new)>(commands: Commands<M>, vm: Vm<M>, payload: Bytes)
    requires ParseRequest(payload).Err?
    ensures HandleFrame(commands, vm, 0xA0, payload) == vm
  {
  }

  /** A read error on the stream ends the connection with an error, whatever came before. */
  lemma {:induction false} ReadErrorFails<M(!new)>(commands: Commands<M>, vm: Vm<M>, input: seq<ReadEvent>)
    requires ReadError in input
    ensures !Connection(commands, vm, input).1
    decreases |input|
  {
    NextFrameShortens([], input);
    var (frame, rest) := NextFrame([], input);
    ErrorStays([], input);
    if frame.Frame? {
      ReadErrorFails(commands, HandleFrame(commands, vm, frame.terminator, frame.payload), rest);
    }
  }

  lemma {:induction false} ErrorStays(buf: Bytes, input: seq<ReadEvent>)
    requires ReadError in input
    ensures var (frame, rest) := NextFrame(buf, input);
      frame != Eof && (frame.Frame? ==> ReadError in rest)
    decreases |input|
  {
    if !input[0].ReadError? {
      assert ReadError in input[1..];
      if input[0].Nothing? {
        ErrorStays(buf, input[1..]);
      } else {
        ErrorStays(buf + [input[0].b], input[1..]);
      }
    }
  }
}
