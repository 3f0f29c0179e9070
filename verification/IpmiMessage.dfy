/**
 IPMI messages and their RMCP and IPMI v1.5 envelopes: internal/ipmi/rmcp.go.
 */
module IpmiMessage {
  import opened Bytes
  import opened Crypto
  import opened Wrappers

  const RMCP_VERSION_1: byte := 0x06
  const RMCP_CLASS_ASF: byte := 0x06
  const RMCP_CLASS_IPMI: byte := 0x07

  const AUTH_TYPE_NONE: byte := 0x00
  const AUTH_TYPE_MD5: byte := 0x02
  const AUTH_TYPE_RMCP_PLUS: byte := 0x06

  const REMOTE_CONSOLE_ADDRESS: byte := 0x81
  const BMC_ADDRESS: byte := 0x20

  datatype ParseError =
    | TooShort
    | UnsupportedVersion
    | AuthCodeTruncated
    | MessageTruncated

  // ----- IPMI messages -----

  datatype Message = Message(
    targetAddress: byte,
    targetLun: byte,
    checksum: byte,
    sourceAddress: byte,
    sourceLun: byte,
    command: byte,
    data: Bytes)
  {
    function GetNetFn(): byte {
      targetLun / 4
    }
  }

  /** Neither checksum is verified. */
  function ParseMessage(data: Bytes): Result<Message, ParseError> {
    if |data| < 7 then
      Err(TooShort)
    else
      Ok(Message(data[0], data[1], data[2], data[3], data[4], data[5], data[6..|data| - 1]))
  }

  /** netFn | 0x01: the network function of the response. */
  function ResponseNetFn(netFn: byte): (r: byte)
    ensures r % 2 == 1 && r / 2 == netFn / 2
  {
    if netFn % 2 == 1 then netFn else netFn + 1
  }

  /** netFn << 2 in eight bits. */
  function ShiftNetFn(netFn: byte): byte {
    netFn % 0x40 * 4
  }

  function MessageHeader(address: byte, lun: byte): Bytes {
    [address, lun, Complement(address as int + lun as int)]
  }

  /** A response echoes the request's sequence byte and carries the completion code before its data. */
  function BuildResponse(netFn: byte, cmd: byte, code: byte, data: Bytes, reqSeqLun: byte): (r: Bytes)
    ensures |r| == 8 + |data|
  {
    var body := [BMC_ADDRESS, reqSeqLun, cmd, code] + data;
    MessageHeader(REMOTE_CONSOLE_ADDRESS, ShiftNetFn(netFn)) + body + [Complement(Sum(body))]
  }

  method BuildIPMIResponseMessageWithSeq(netFn: byte, cmd: byte, code: byte, data: Bytes, reqSeqLun: byte)
    returns (r: Bytes)
    ensures r == BuildResponse(netFn, cmd, code, data, reqSeqLun)
  {
    var targetLun := ShiftNetFn(netFn);
    var headerSum := REMOTE_CONSOLE_ADDRESS as int + targetLun as int;
    var headerChecksum := (0x100 - headerSum % 0x100) % 0x100;
    r := [REMOTE_CONSOLE_ADDRESS, targetLun, headerChecksum, BMC_ADDRESS, reqSeqLun, cmd, code];
    r := r + data;

    ghost var head := [BMC_ADDRESS, reqSeqLun, cmd, code];
    SumOf4(head);
    var dataSum: uint32 := BMC_ADDRESS as int + reqSeqLun as int + cmd as int + code as int;
    for i := 0 to |data|
      invariant dataSum == (Sum(head) + Sum(data[..i])) % 0x1_0000_0000
    {
      SumSnoc(data, i);
      WrapAdds(Sum(head) + Sum(data[..i]), data[i]);
      dataSum := (dataSum as int + data[i] as int) % 0x1_0000_0000;
    }
    assert data[..|data|] == data;
    var dataChecksum := (0x100 - dataSum % 0x100) % 0x100;
    WrapHarmless(Sum(head) + Sum(data));
    assert dataChecksum == Complement(Sum(head) + Sum(data));
    r := r + [dataChecksum];
    ResponseLayout(netFn, cmd, code, data, reqSeqLun);
  }

  lemma ResponseLayout(netFn: byte, cmd: byte, code: byte, data: Bytes, reqSeqLun: byte)
    ensures BuildResponse(netFn, cmd, code, data, reqSeqLun)
         == [REMOTE_CONSOLE_ADDRESS, ShiftNetFn(netFn),
             Complement(REMOTE_CONSOLE_ADDRESS as int + ShiftNetFn(netFn) as int),
             BMC_ADDRESS, reqSeqLun, cmd, code]
            + data + [Complement(Sum([BMC_ADDRESS, reqSeqLun, cmd, code]) + Sum(data))]
  {
    var head := [BMC_ADDRESS, reqSeqLun, cmd, code];
    var header := MessageHeader(REMOTE_CONSOLE_ADDRESS, ShiftNetFn(netFn));
    SumAppend(head, data);
    assert header + head == [REMOTE_CONSOLE_ADDRESS, ShiftNetFn(netFn), header[2], BMC_ADDRESS, reqSeqLun, cmd, code];
    Regroup(header, head, data, [Complement(Sum(head + data))]);
  }

  lemma Regroup(a: Bytes, b: Bytes, c: Bytes, d: Bytes)
    ensures a + (b + c) + d == a + b + c + d
  {
  }

  lemma SumOf4(s: Bytes)
    requires |s| == 4
    ensures Sum(s) == s[0] as int + s[1] as int + s[2] as int + s[3] as int
  {
    var s1, s2, s3 := s[1..], s[2..], s[3..];
    assert s1[1..] == s2 && s2[1..] == s3 && s3[1..] == [];
    assert Sum(s3) == s[3] as int;
    assert Sum(s2) == s[2] as int + Sum(s3);
    assert Sum(s1) == s[1] as int + Sum(s2);
  }

  /** Both checksums of a response bring the bytes they cover to zero modulo 256. */
  lemma ResponseChecksumsClose(netFn: byte, cmd: byte, code: byte, data: Bytes, reqSeqLun: byte)
    ensures var r := BuildResponse(netFn, cmd, code, data, reqSeqLun);
      Sum(r[..3]) % 0x100 == 0 && Sum(r[3..]) % 0x100 == 0
  {
    var r := BuildResponse(netFn, cmd, code, data, reqSeqLun);
    var body := [BMC_ADDRESS, reqSeqLun, cmd, code] + data;
    var header := MessageHeader(REMOTE_CONSOLE_ADDRESS, ShiftNetFn(netFn));
    assert r[3..] == body + [Complement(Sum(body))];
    ClosedByComplement(body);
    assert r[..3] == header == header[..2] + [header[2]];
    SumOf2(header[..2]);
    ClosedByComplement(header[..2]);
  }

  lemma ClosedByComplement(body: Bytes)
    ensures Sum(body + [Complement(Sum(body))]) % 0x100 == 0
  {
    var c := Complement(Sum(body));
    SumAppend(body, [c]);
    assert [c][1..] == [];
  }

  lemma SumOf2(s: Bytes)
    requires |s| == 2
    ensures Sum(s) == s[0] as int + s[1] as int
  {
    assert s[1..][1..] == [];
    assert Sum(s[1..]) == s[1] as int;
  }

  /** Corrupting one byte of a response breaks the checksum that covers it. */
  lemma ResponseCorruptionShows(netFn: byte, cmd: byte, code: byte, data: Bytes, reqSeqLun: byte, i: nat, b: byte)
    requires i < 8 + |data| && b != BuildResponse(netFn, cmd, code, data, reqSeqLun)[i]
    ensures var r := BuildResponse(netFn, cmd, code, data, reqSeqLun)[i := b];
      if i < 3 then Sum(r[..3]) % 0x100 != 0 else Sum(r[3..]) % 0x100 != 0
  {
    var r := BuildResponse(netFn, cmd, code, data, reqSeqLun);
    ResponseChecksumsClose(netFn, cmd, code, data, reqSeqLun);
    if i < 3 {
      assert r[i := b][..3] == r[..3][i := b];
      CorruptionShows(r[..3], i, b);
    } else {
      assert r[i := b][3..] == r[3..][i - 3 := b];
      CorruptionShows(r[3..], i - 3, b);
    }
  }

  lemma CorruptionShows(s: Bytes, i: nat, b: byte)
    requires Sum(s) % 0x100 == 0 && i < |s| && b != s[i]
    ensures Sum(s[i := b]) % 0x100 != 0
  {
    SumUpdate(s, i, b);
    var q, d := Sum(s) / 0x100, b as int - s[i] as int;
    assert Sum(s[i := b]) == 0x100 * q + d && -0x100 < d < 0x100 && d != 0;
  }

  // ----- what a console sends and reads -----

  /** A request as a console states it; `seqLun` is its sequence number and LUN. */
  datatype Request = Request(netFn: byte, lun: byte, cmd: byte, data: Bytes, seqLun: byte)
  {
    predicate Valid() {
      netFn < 0x40 && lun < 4
    }
  }

  function BuildRequest(req: Request): (r: Bytes)
    requires req.Valid()
    ensures |r| == 7 + |req.data|
  {
    var body := [REMOTE_CONSOLE_ADDRESS, req.seqLun, req.cmd] + req.data;
    MessageHeader(BMC_ADDRESS, req.netFn * 4 + req.lun) + body + [Complement(Sum(body))]
  }

  lemma RequestParses(req: Request)
    requires req.Valid()
    ensures var p := ParseMessage(BuildRequest(req));
      && p == Ok(Message(BMC_ADDRESS, req.netFn * 4 + req.lun, Complement(BMC_ADDRESS as int + req.netFn as int * 4 + req.lun as int),
                         REMOTE_CONSOLE_ADDRESS, req.seqLun, req.cmd, req.data))
      && p.value.GetNetFn() == req.netFn
  {
    var msg := BuildRequest(req);
    var head := MessageHeader(BMC_ADDRESS, req.netFn * 4 + req.lun) + [REMOTE_CONSOLE_ADDRESS, req.seqLun, req.cmd];
    var body := [REMOTE_CONSOLE_ADDRESS, req.seqLun, req.cmd] + req.data;
    assert msg == head + req.data + [Complement(Sum(body))];
    SliceOf(head, req.data, [Complement(Sum(body))]);
  }

  /** A response as a console reads it. */
  datatype Response = Response(netFn: byte, cmd: byte, code: byte, data: Bytes, seqLun: byte)

  /** A console checks both checksums and takes the completion code off the data. */
  function ReadResponse(data: Bytes): Option<Response> {
    if |data| < 8 || Sum(data[..3]) % 0x100 != 0 || Sum(data[3..]) % 0x100 != 0 then
      None
    else
      Some(Response(data[1] / 4, data[5], data[6], data[7..|data| - 1], data[4]))
  }

  lemma ResponseReads(netFn: byte, cmd: byte, code: byte, data: Bytes, reqSeqLun: byte)
    requires netFn < 0x40
    ensures ReadResponse(BuildResponse(netFn, cmd, code, data, reqSeqLun))
         == Some(Response(netFn, cmd, code, data, reqSeqLun))
  {
    ResponseChecksumsClose(netFn, cmd, code, data, reqSeqLun);
    var r := BuildResponse(netFn, cmd, code, data, reqSeqLun);
    var body := [BMC_ADDRESS, reqSeqLun, cmd, code] + data;
    var head := MessageHeader(REMOTE_CONSOLE_ADDRESS, ShiftNetFn(netFn)) + [BMC_ADDRESS, reqSeqLun, cmd, code];
    assert r == head + data + [Complement(Sum(body))];
    SliceOf(head, data, [Complement(Sum(body))]);
  }

  // ----- RMCP -----

  function ParseRmcp(data: Bytes): Result<(byte, Bytes), ParseError> {
    if |data| < 4 then
      Err(TooShort)
    else if data[0] != RMCP_VERSION_1 then
      Err(UnsupportedVersion)
    else
      Ok((data[3], data[4..]))
  }

  function SerializeRmcp(cls: byte, payload: Bytes): Bytes {
    [RMCP_VERSION_1, 0x00, 0xFF, cls] + payload
  }

  lemma RmcpRoundTrip(cls: byte, payload: Bytes)
    ensures ParseRmcp(SerializeRmcp(cls, payload)) == Ok((cls, payload))
  {
    assert SerializeRmcp(cls, payload)[4..] == payload;
  }

  // ----- IPMI v1.5 -----

  datatype SessionHeader = SessionHeader(authType: byte, sequenceNumber: uint32, sessionId: uint32)

  /** The message is absent when the payload turns out to be RMCP+. */
  function ParseIpmi15(data: Bytes): Result<(SessionHeader, Option<Message>), ParseError> {
    if |data| < 10 then
      Err(TooShort)
    else
      var header := SessionHeader(data[0], FromLe32(data[1..5]), FromLe32(data[5..9]));
      if header.authType == AUTH_TYPE_RMCP_PLUS then
        Ok((header, None))
      else if header.authType != AUTH_TYPE_NONE && |data| < 9 + 16 then
        Err(AuthCodeTruncated)
      else
        var rest := if header.authType == AUTH_TYPE_NONE then data[9..] else data[25..];
        if rest == [] then
          Err(TooShort)
        else if |rest| - 1 < rest[0] as int then
          Err(MessageTruncated)
        else
          match ParseMessage(rest[1..1 + rest[0] as int])
          case Err(e) => Err(e)
          case Ok(msg) => Ok((header, Some(msg)))
  }

  /** A password cut or zero-padded to 16 bytes. */
  function PassKey(password: Bytes): (r: Bytes)
    ensures |r| == 16
  {
    if |password| >= 16 then password[..16] else password + seq(16 - |password|, _ => 0)
  }

  /** Only the MD5 code is computed; the other types get zeros. */
  function AuthCode15(c: Crypto, header: SessionHeader, password: Bytes, msg: Bytes): (r: Bytes)
    ensures |r| == 16
  {
    if header.authType == AUTH_TYPE_MD5 then
      c.md5(PassKey(password) + Le32(header.sessionId) + msg + Le32(header.sequenceNumber) + PassKey(password))
    else
      seq(16, _ => 0)
  }

  function Header15(header: SessionHeader): (r: Bytes)
    ensures |r| == 9
  {
    [header.authType] + Le32(header.sequenceNumber) + Le32(header.sessionId)
  }

  /** The length of the message is written as a single byte. */
  function SerializeIpmi15(c: Crypto, header: SessionHeader, msg: Bytes, password: Bytes): Bytes {
    Header15(header)
    + (if header.authType == AUTH_TYPE_NONE then [] else AuthCode15(c, header, password, msg))
    + [|msg| % 0x100] + msg
  }

  /** What the length byte and the bytes after it hold, for a console that reads the reply. */
  function Message15(data: Bytes): Option<Bytes> {
    if |data| < 9 then
      None
    else
      var rest := if data[0] == AUTH_TYPE_NONE then data[9..] else if |data| < 25 then [] else data[25..];
      if rest == [] || |rest| - 1 < rest[0] as int then None else Some(rest[1..1 + rest[0] as int])
  }

  /** A v1.5 reply carries its message whole exactly when its length fits the length byte. */
  lemma Message15Exact(c: Crypto, header: SessionHeader, msg: Bytes, password: Bytes)
    ensures Message15(SerializeIpmi15(c, header, msg, password)) == Some(msg) <==> |msg| < 0x100
  {
    var auth := if header.authType == AUTH_TYPE_NONE then [] else AuthCode15(c, header, password, msg);
    var data := SerializeIpmi15(c, header, msg, password);
    var rest: Bytes := [|msg| % 0x100] + msg;
    assert data == Header15(header) + auth + rest;
    SliceOf(Header15(header), auth, rest);
    assert rest == if data[0] == AUTH_TYPE_NONE then data[9..] else data[25..];
    if |msg| < 0x100 {
      assert rest[1..1 + |msg|] == msg;
    }
  }

  lemma Ipmi15Parses(c: Crypto, header: SessionHeader, msg: Bytes, password: Bytes)
    requires header.authType != AUTH_TYPE_RMCP_PLUS && 7 <= |msg| < 0x100
    ensures ParseIpmi15(SerializeIpmi15(c, header, msg, password)) == Ok((header, Some(ParseMessage(msg).value)))
  {
    var auth := if header.authType == AUTH_TYPE_NONE then [] else AuthCode15(c, header, password, msg);
    var data := SerializeIpmi15(c, header, msg, password);
    var rest: Bytes := [|msg| % 0x100] + msg;
    assert data == Header15(header) + auth + rest;
    SliceOf(Header15(header), auth, rest);
    assert rest == if header.authType == AUTH_TYPE_NONE then data[9..] else data[25..];
    assert data[1..5] == Le32(header.sequenceNumber);
    assert data[5..9] == Le32(header.sessionId);
    Le32RoundTrip(header.sequenceNumber);
    Le32RoundTrip(header.sessionId);
    assert rest[1..1 + |msg|] == msg;
  }

  // ----- byte by byte -----

  /** A response on the wire: to the console at 0x81 from the BMC at 0x20. */
  lemma ResponseOnWire(netFn: byte, cmd: byte, code: byte, data: Bytes, reqSeqLun: byte)
    ensures var r := BuildResponse(netFn, cmd, code, data, reqSeqLun);
      && |r| == 8 + |data|
      && r[0] == 0x81 && r[1] / 4 == netFn % 0x40 && r[1] % 4 == 0
      && r[3] == 0x20 && r[4] == reqSeqLun && r[5] == cmd && r[6] == code
      && r[7..7 + |data|] == data
  {
    ResponseLayout(netFn, cmd, code, data, reqSeqLun);
  }

  lemma RmcpAcceptsIff(data: Bytes)
    ensures ParseRmcp(data).Ok? <==> |data| >= 4 && data[0] == 0x06
    ensures ParseRmcp(data).Ok? ==> ParseRmcp(data).value == (data[3], data[4..])
  {
  }

  lemma RmcpOnWire(cls: byte, payload: Bytes)
    ensures SerializeRmcp(cls, payload) == [0x06, 0x00, 0xFF, cls] + payload
  {
  }

  /** What the v1.5 parser takes: an RMCP+ payload as such; otherwise a length byte after the
      header, or after the authentication code if there is one, with that many bytes behind it,
      at least a message's seven. */
  lemma Ipmi15AcceptsIff(data: Bytes)
    ensures ParseIpmi15(data).Ok? <==>
      && |data| >= 10
      && (data[0] == 0x06
          || var at := if data[0] == 0x00 then 9 else 25;
             |data| > at && data[at] >= 7 && |data| > at + data[at] as int)
    ensures ParseIpmi15(data).Ok? ==> (ParseIpmi15(data).value.1.None? <==> data[0] == 0x06)
  {
    if |data| >= 10 && data[0] != 0x06 && (data[0] == 0x00 || |data| >= 25) {
      var at := if data[0] == 0x00 then 9 else 25;
      assert |data| > at ==> data[at..][0] == data[at];
    }
  }

  /** A password as the MD5 code takes it: 16 bytes, cut or filled with zeros. */
  ghost predicate IsPassKey(key: Bytes, password: Bytes) {
    |key| == 16 && forall i :: 0 <= i < 16 ==> key[i] == if i < |password| then password[i] else 0
  }

  /** A v1.5 reply on the wire: type, sequence number and session id; under MD5 the digest of
      password, session id, message, sequence number and password again, under other types
      zeros, and nothing at all under none; then length and message. */
  lemma Ipmi15OnWire(c: Crypto, header: SessionHeader, msg: Bytes, password: Bytes, key: Bytes)
    requires IsPassKey(key, password)
    ensures var data := SerializeIpmi15(c, header, msg, password);
      var at := if header.authType == 0x00 then 9 else 25;
      && |data| == at + 1 + |msg|
      && data[0] == header.authType
      && LittleEndian(data[1..5]) == header.sequenceNumber as int && LittleEndian(data[5..9]) == header.sessionId as int
      && (header.authType == 0x02 ==>
            data[9..25] == c.md5(key + Le32(header.sessionId) + msg + Le32(header.sequenceNumber) + key))
      && (header.authType != 0x02 && header.authType != 0x00 ==> forall i :: 9 <= i < 25 ==> data[i] == 0)
      && data[at] as int == |msg| % 0x100 && data[at + 1..] == msg
  {
    assert PassKey(password) == key;
    var auth := if header.authType == AUTH_TYPE_NONE then [] else AuthCode15(c, header, password, msg);
    var data := SerializeIpmi15(c, header, msg, password);
    var rest: Bytes := [|msg| % 0x100] + msg;
    assert data == Header15(header) + auth + rest;
    SliceOf(Header15(header), auth, rest);
    assert data[1..5] == Le32(header.sequenceNumber);
    assert data[5..9] == Le32(header.sessionId);
    FieldsAreLittleEndian(0, header.sequenceNumber, [0, 0], [0, 0, 0, 0]);
    FieldsAreLittleEndian(0, header.sessionId, [0, 0], [0, 0, 0, 0]);
    if header.authType != 0x02 && header.authType != 0x00 {
      assert forall i :: 9 <= i < 25 ==> data[i] == data[9..25][i - 9];
    }
  }
}
