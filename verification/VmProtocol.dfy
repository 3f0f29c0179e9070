/**
 The OpenIPMI VM wire protocol of internal/ipmi/vm_protocol.go: byte stuffing, the message
 checksum, and the request and response codecs.
 */
module VmProtocol {
  import opened Bytes
  import opened Wrappers

  const MSG_CHAR: byte := 0xA0
  const CMD_CHAR: byte := 0xA1
  const ESCAPE_CHAR: byte := 0xAA

  predicate IsTerminator(b: byte) {
    b == MSG_CHAR || b == CMD_CHAR
  }

  // ----- escaping -----

  /** b | 0x10 */
  function SetBit4(b: byte): byte {
    if b / 0x10 % 2 == 1 then b else b + 0x10
  }

  /** b & ^0x10 */
  function ClearBit4(b: byte): byte {
    if b / 0x10 % 2 == 1 then b - 0x10 else b
  }

  function EscapeByte(b: byte): Bytes {
    if IsTerminator(b) || b == ESCAPE_CHAR then [ESCAPE_CHAR, SetBit4(b)] else [b]
  }

  function Escape(data: Bytes): Bytes {
    if data == [] then [] else EscapeByte(data[0]) + Escape(data[1..])
  }

  function Prepend(pre: Bytes, r: Option<Bytes>): Option<Bytes> {
    match r
    case None => None
    case Some(s) => Some(pre + s)
  }

  function Unescape(data: Bytes): Option<Bytes> {
    if data == [] then
      Some([])
    else if data[0] != ESCAPE_CHAR then
      Prepend([data[0]], Unescape(data[1..]))
    else if |data| == 1 then
      None
    else
      Prepend([ClearBit4(data[1])], Unescape(data[2..]))
  }

  method VmEscapeBytes(data: Bytes) returns (result: Bytes)
    ensures result == Escape(data)
  {
    result := [];
    assert data[0..] == data;
    for i := 0 to |data|
      invariant result + Escape(data[i..]) == Escape(data)
    {
      EscapeStep(result, data, i);
      if data[i] == MSG_CHAR || data[i] == CMD_CHAR || data[i] == ESCAPE_CHAR {
        result := result + [ESCAPE_CHAR, SetBit4(data[i])];
      } else {
        result := result + [data[i]];
      }
    }
  }

  lemma EscapeStep(out: Bytes, data: Bytes, i: nat)
    requires i < |data|
    ensures out + Escape(data[i..]) == out + EscapeByte(data[i]) + Escape(data[i + 1..])
  {
    assert data[i..][1..] == data[i + 1..];
  }

  method VmUnescapeBytes(data: Bytes) returns (result: Option<Bytes>)
    ensures result == Unescape(data)
  {
    var out: Bytes := [];
    var i := 0;
    assert data[0..] == data;
    PrependLaws([], [], Unescape(data));
    while i < |data|
      invariant 0 <= i <= |data|
      invariant Unescape(data) == Prepend(out, Unescape(data[i..]))
    {
      if data[i] == ESCAPE_CHAR {
        i := i + 1;
        if i >= |data| {
          return None;
        }
        assert data[i - 1..][2..] == data[i + 1..];
        PrependLaws(out, [ClearBit4(data[i])], Unescape(data[i + 1..]));
        out := out + [ClearBit4(data[i])];
      } else {
        assert data[i..][1..] == data[i + 1..];
        PrependLaws(out, [data[i]], Unescape(data[i + 1..]));
        out := out + [data[i]];
      }
      i := i + 1;
    }
    assert data[i..] == [];
    assert out + [] == out;
    return Some(out);
  }

  lemma PrependLaws(a: Bytes, b: Bytes, r: Option<Bytes>)
    ensures Prepend([], r) == r
    ensures Prepend(a, Prepend(b, r)) == Prepend(a + b, r)
  {
    if r.Some? {
      assert [] + r.value == r.value;
      assert a + (b + r.value) == a + b + r.value;
    }
  }

  /** What is escaped comes back, and escaping never produces a frame terminator. */
  lemma {:induction false} EscapeRoundTrip(data: Bytes)
    ensures Unescape(Escape(data)) == Some(data)
    ensures forall b | b in Escape(data) :: !IsTerminator(b)
  {
    if data != [] {
      var rest := Escape(data[1..]);
      EscapeRoundTrip(data[1..]);
      assert data == [data[0]] + data[1..];
      if |EscapeByte(data[0])| == 1 {
        assert Escape(data)[1..] == rest;
      } else {
        assert Escape(data)[2..] == rest;
      }
    }
  }

  lemma EscapeInjective(a: Bytes, b: Bytes)
    requires Escape(a) == Escape(b)
    ensures a == b
  {
    EscapeRoundTrip(a);
    EscapeRoundTrip(b);
  }

  /** The number of escape characters `data` ends in. */
  function TrailingEscapes(data: Bytes): nat {
    if data != [] && data[|data| - 1] == ESCAPE_CHAR then
      1 + TrailingEscapes(data[..|data| - 1])
    else
      0
  }

  lemma {:induction false} TrailingEscapesSuffix(pre: Bytes, data: Bytes)
    requires pre == [] || pre[|pre| - 1] != ESCAPE_CHAR
    ensures TrailingEscapes(pre + data) == TrailingEscapes(data)
    decreases |data|
  {
    if data == [] {
      assert pre + data == pre;
    } else {
      assert (pre + data)[..|pre + data| - 1] == pre + data[..|data| - 1];
      if data[|data| - 1] == ESCAPE_CHAR {
        TrailingEscapesSuffix(pre, data[..|data| - 1]);
      }
    }
  }

  lemma {:induction false} TrailingEscapesSkipTwo(data: Bytes)
    requires |data| >= 2 && data[0] == ESCAPE_CHAR
    ensures TrailingEscapes(data) % 2 == TrailingEscapes(data[2..]) % 2
    decreases |data|
  {
    var n := |data| - 1;
    if n == 1 {
      assert data[..1][..0] == [];
      assert data[2..] == [];
    } else {
      assert data[2..][..n - 2] == data[..n][2..];
      if data[n] == ESCAPE_CHAR {
        TrailingEscapesSkipTwo(data[..n]);
      }
    }
  }

  /** Unescaping fails exactly when the data ends in an escape character that escapes nothing:
      an odd run of them. */
  lemma {:induction false} UnescapeFailsIffDangling(data: Bytes)
    ensures Unescape(data).None? <==> TrailingEscapes(data) % 2 == 1
  {
    if data == [] {
    } else if data[0] != ESCAPE_CHAR {
      UnescapeFailsIffDangling(data[1..]);
      assert data == [data[0]] + data[1..];
      TrailingEscapesSuffix([data[0]], data[1..]);
    } else if |data| == 1 {
      assert data[..0] == [];
    } else {
      UnescapeFailsIffDangling(data[2..]);
      TrailingEscapesSkipTwo(data);
    }
  }

  // ----- checksum -----

  /** The uint32 accumulator may wrap; the checksum does not notice. */
  method VmChecksum(data: Bytes) returns (c: byte)
    ensures c == Complement(Sum(data))
  {
    var sum: uint32 := 0;
    for i := 0 to |data|
      invariant sum == Sum(data[..i]) % 0x1_0000_0000
    {
      SumSnoc(data, i);
      sum := (sum as int + data[i] as int) % 0x1_0000_0000;
    }
    assert data[..|data|] == data;
    WrapHarmless(Sum(data));
    c := (0x100 - sum % 0x100) % 0x100;
  }

  // ----- codecs -----

  datatype Request = Request(seqNo: byte, netFn: byte, lun: byte, cmd: byte, data: Bytes)

  datatype ParseError = TooShort | ChecksumMismatch

  /** The byte carrying a network function in its upper six bits and a LUN in its lower two. */
  function NetFnLun(netFn: byte, lun: byte): byte {
    (netFn % 0x40) * 4 + lun % 4
  }

  function ParseRequest(data: Bytes): Result<Request, ParseError> {
    if |data| < 4 then
      Err(TooShort)
    else if Sum(data) % 0x100 != 0 then
      Err(ChecksumMismatch)
    else
      Ok(Request(data[0], data[1] / 4, data[1] % 4, data[2], data[3..|data| - 1]))
  }

  method VmParseIPMIRequest(data: Bytes) returns (r: Result<Request, ParseError>)
    ensures r == ParseRequest(data)
  {
    if |data| < 4 {
      return Err(TooShort);
    }
    var sum: uint32 := 0;
    for i := 0 to |data|
      invariant sum == Sum(data[..i]) % 0x1_0000_0000
    {
      SumSnoc(data, i);
      sum := (sum as int + data[i] as int) % 0x1_0000_0000;
    }
    assert data[..|data|] == data;
    WrapHarmless(Sum(data));
    if sum % 0x100 != 0 {
      return Err(ChecksumMismatch);
    }
    r := Ok(Request(data[0], data[1] / 4 % 0x40, data[1] % 4, data[2], data[3..|data| - 1]));
  }

  /** A message body followed by its checksum. */
  function WithChecksum(body: Bytes): Bytes {
    body + [Complement(Sum(body))]
  }

  function BuildResponse(seqNo: byte, netFn: byte, lun: byte, cmd: byte, cc: byte, data: Bytes): Bytes {
    WithChecksum([seqNo, NetFnLun(netFn, lun), cmd, cc] + data)
  }

  method VmBuildIPMIResponse(seqNo: byte, netFn: byte, lun: byte, cmd: byte, cc: byte, data: Bytes)
    returns (result: Bytes)
    ensures result == BuildResponse(seqNo, netFn, lun, cmd, cc, data)
  {
    result := [seqNo, NetFnLun(netFn, lun), cmd, cc];
    result := result + data;
    var checksum := VmChecksum(result);
    result := result + [checksum];
  }

  lemma WithChecksumCloses(body: Bytes)
    ensures Sum(WithChecksum(body)) % 0x100 == 0
  {
    var c := Complement(Sum(body));
    SumAppend(body, [c]);
    assert [c][1..] == [];
  }

  /** A peer that sends a request with its checksum. */
  function BuildRequest(req: Request): Bytes {
    WithChecksum([req.seqNo, NetFnLun(req.netFn, req.lun), req.cmd] + req.data)
  }

  lemma NetFnLunParts(netFn: byte, lun: byte)
    ensures NetFnLun(netFn, lun) / 4 == netFn % 0x40 && NetFnLun(netFn, lun) % 4 == lun % 4
  {
  }

  lemma RequestRoundTrip(req: Request)
    requires req.netFn < 0x40 && req.lun < 4
    ensures ParseRequest(BuildRequest(req)) == Ok(req)
  {
    var head := [req.seqNo, NetFnLun(req.netFn, req.lun), req.cmd];
    var body := head + req.data;
    var msg := WithChecksum(body);
    WithChecksumCloses(body);
    SliceOf(head, req.data, [Complement(Sum(body))]);
    assert msg[3..|msg| - 1] == req.data;
    assert msg[..3] == head;
    assert msg[0] == head[0] && msg[1] == head[1] && msg[2] == head[2];
    NetFnLunParts(req.netFn, req.lun);
  }

  /** The request parser accepts every response the builder makes, whatever its length, and
      recovers each field; the completion code is the first data byte. */
  lemma ResponseParses(seqNo: byte, netFn: byte, lun: byte, cmd: byte, cc: byte, data: Bytes)
    ensures ParseRequest(BuildResponse(seqNo, netFn, lun, cmd, cc, data))
         == Ok(Request(seqNo, netFn % 0x40, lun % 4, cmd, [cc] + data))
  {
    var req := Request(seqNo, netFn % 0x40, lun % 4, cmd, [cc] + data);
    assert [seqNo, NetFnLun(netFn, lun), cmd] + ([cc] + data) == [seqNo, NetFnLun(netFn, lun), cmd, cc] + data;
    RequestRoundTrip(req);
  }

  /** Corrupting any one byte of an accepted message gets it rejected. */
  lemma SingleByteChangeRejected(data: Bytes, i: nat, b: byte)
    requires ParseRequest(data).Ok? && i < |data| && b != data[i]
    ensures ParseRequest(data[i := b]) == Err(ChecksumMismatch)
  {
    SumUpdate(data, i, b);
    var q, d := Sum(data) / 0x100, b - data[i];
    assert Sum(data[i := b]) == 0x100 * q + d;
    assert -0x100 < d < 0x100 && d != 0;
  }

  // ----- control commands -----

  const VM_CMD_NO_ATTN: byte := 0x00
  const VM_CMD_CAPABILITIES: byte := 0x08

  function ParseControlCommand(data: Bytes): Option<(byte, Bytes)> {
    if data == [] then None else Some((data[0], data[1..]))
  }

  function BuildControlCommand(cmd: byte, data: Bytes): Bytes {
    [cmd] + data
  }

  // ----- byte by byte -----

  lemma {:induction false} EscapeAppend(a: Bytes, b: Bytes)
    ensures Escape(a + b) == Escape(a) + Escape(b)
    decreases |a|
  {
    if a == [] {
      assert a + b == b;
    } else {
      assert (a + b)[1..] == a[1..] + b;
      EscapeAppend(a[1..], b);
    }
  }

  /** Escaping goes byte by byte: the three special bytes become 0xAA and themselves with bit 4
      set, the others stay. */
  lemma EscapeOfByte(b: byte)
    ensures Escape([b]) ==
      if b == 0xA0 then [0xAA, 0xB0] else if b == 0xA1 then [0xAA, 0xB1] else if b == 0xAA then [0xAA, 0xBA] else [b]
  {
    assert [b][1..] == [];
  }

  lemma ClearBit4Clears(x: byte, y: byte)
    requires y / 0x20 == x / 0x20 && y % 0x10 == x % 0x10 && y / 0x10 % 2 == 0
    ensures ClearBit4(x) == y
  {
    assert x == 0x20 * (x / 0x20) + 0x10 * (x / 0x10 % 2) + x % 0x10;
    assert y == 0x20 * (y / 0x20) + 0x10 * (y / 0x10 % 2) + y % 0x10;
  }

  /** Unescaping clears bit 4 of whatever follows 0xAA. */
  lemma UnescapeOfPair(x: byte, y: byte, rest: Bytes)
    requires y / 0x20 == x / 0x20 && y % 0x10 == x % 0x10 && y / 0x10 % 2 == 0
    ensures Unescape([0xAA, x] + rest) == Prepend([y], Unescape(rest))
    ensures x != 0xAA ==> Unescape([x] + rest) == Prepend([x], Unescape(rest))
    ensures Unescape([0xAA]) == None
  {
    ClearBit4Clears(x, y);
    var data := [0xAA, x] + rest;
    assert data[0] == 0xAA && data[1] == x && data[2..] == rest;
    assert ([x] + rest)[1..] == rest;
  }

  /** The parser takes exactly the messages of four bytes or more that sum to zero modulo 256. */
  lemma ParseAcceptsIff(data: Bytes)
    ensures ParseRequest(data).Ok? <==> |data| >= 4 && Sum(data) % 0x100 == 0
    ensures |data| < 4 ==> ParseRequest(data) == Err(TooShort)
  {
  }

  lemma ResponseOnWire(seqNo: byte, netFn: byte, lun: byte, cmd: byte, cc: byte, data: Bytes)
    ensures var r := BuildResponse(seqNo, netFn, lun, cmd, cc, data);
      && |r| == 5 + |data|
      && r[0] == seqNo && r[1] / 4 == netFn % 0x40 && r[1] % 4 == lun % 4 && r[2] == cmd && r[3] == cc
      && r[4..4 + |data|] == data
      && Sum(r) % 0x100 == 0
  {
    var head := [seqNo, NetFnLun(netFn, lun), cmd, cc];
    WithChecksumCloses(head + data);
    NetFnLunParts(netFn, lun);
    SliceOf(head, data, [Complement(Sum(head + data))]);
  }
}
