/**
 The AES-CBC-128 confidentiality payload of internal/ipmi/rmcp_plus.go (IPMI v2.0
 section 13.29): a random IV, then the padded message in cipher block chaining.
 */
module AesCbc {
  import opened Bytes
  import opened Crypto
  import opened Wrappers

  // ----- padding -----

  /** The trailer of `n` bytes: 1, 2, .., n-1 and then their count. */
  function Trailer(n: nat): (t: Bytes)
    requires 1 <= n <= BLOCK_SIZE
    ensures |t| == n
  {
    seq(n, i requires 0 <= i < n => if i == n - 1 then n - 1 else i + 1)
  }

  function Pad(data: Bytes): Bytes {
    data + Trailer(BLOCK_SIZE - |data| % BLOCK_SIZE)
  }

  method PadPayload(data: Bytes) returns (padded: Bytes)
    ensures padded == Pad(data)
  {
    var padSize := BLOCK_SIZE - |data| % BLOCK_SIZE;
    var padding := new byte[padSize];
    for i := 0 to padSize
      invariant forall k :: 0 <= k < i ==> padding[k] == k + 1
    {
      padding[i] := i + 1;
    }
    padding[padSize - 1] := padSize - 1;
    assert padding[..] == Trailer(padSize);
    padded := data + padding[..];
  }

  datatype CipherError = RandomFailed | DataTooShort | NotAligned | EmptyData | InvalidPadding

  function Unpad(data: Bytes): Result<Bytes, CipherError> {
    if data == [] then
      Err(EmptyData)
    else
      var padLen := data[|data| - 1] as int;
      if padLen >= |data| then Err(InvalidPadding) else Ok(data[..|data| - padLen - 1])
  }

  /** Padding fills whole blocks with 1 to 16 bytes, the last of which counts the others. */
  lemma PadShape(data: Bytes)
    ensures |Pad(data)| % BLOCK_SIZE == 0
    ensures |data| + 1 <= |Pad(data)| <= |data| + BLOCK_SIZE
    ensures Pad(data)[|Pad(data)| - 1] as int == |Pad(data)| - |data| - 1
    ensures data <= Pad(data)
    ensures forall k :: |data| <= k < |Pad(data)| - 1 ==> Pad(data)[k] as int == k - |data| + 1
  {
    var q, r := |data| / BLOCK_SIZE, |data| % BLOCK_SIZE;
    assert |Pad(data)| == BLOCK_SIZE * (q + 1);
  }

  lemma UnpadKeepsFront(m: Bytes, pad: Bytes)
    requires |pad| < 0x100
    ensures Unpad(m + pad + [|pad| as byte]) == Ok(m)
  {
    var data := m + pad + [|pad| as byte];
    assert data[|data| - 1] == |pad| as byte;
    assert data[..|m|] == m;
  }

  lemma FrontAndPad(data: Bytes, m: Bytes) returns (pad: Bytes)
    requires Unpad(data) == Ok(m)
    ensures |pad| < 0x100 && data == m + pad + [|pad| as byte]
  {
    var last := |data| - 1;
    pad := data[|m|..last];
    assert |pad| == data[last] as int;
    assert data[..last] == m + pad;
    assert data == data[..last] + [data[last]];
  }

  /** Unpadding strips a final count and that many bytes before it, whatever they hold; it is
      defined on exactly the strings of that form. */
  lemma UnpadStripsCount(data: Bytes, m: Bytes)
    ensures Unpad(data) == Ok(m) <==>
      exists pad: Bytes :: |pad| < 0x100 && data == m + pad + [|pad| as byte]
  {
    if Unpad(data) == Ok(m) {
      var pad := FrontAndPad(data, m);
    } else if exists pad: Bytes :: |pad| < 0x100 && data == m + pad + [|pad| as byte] {
      var pad: Bytes :| |pad| < 0x100 && data == m + pad + [|pad| as byte];
      UnpadKeepsFront(m, pad);
    }
  }

  lemma UnpadPad(data: Bytes)
    ensures Unpad(Pad(data)) == Ok(data)
  {
    PadShape(data);
  }

  // ----- cipher block chaining -----

  function CbcEncrypt(c: Crypto, key: Bytes, iv: Bytes, plain: Bytes): (r: Bytes)
    requires |iv| == BLOCK_SIZE && |plain| % BLOCK_SIZE == 0
    ensures |r| == |plain|
    decreases |plain|
  {
    if plain == [] then
      []
    else
      var block := c.encryptBlock(key, XorBytes(plain[..BLOCK_SIZE], iv));
      block + CbcEncrypt(c, key, block, plain[BLOCK_SIZE..])
  }

  function CbcDecrypt(c: Crypto, key: Bytes, iv: Bytes, cipher: Bytes): (r: Bytes)
    requires |iv| == BLOCK_SIZE && |cipher| % BLOCK_SIZE == 0
    ensures |r| == |cipher|
    decreases |cipher|
  {
    if cipher == [] then
      []
    else
      var block := cipher[..BLOCK_SIZE];
      XorBytes(c.decryptBlock(key, block), iv) + CbcDecrypt(c, key, block, cipher[BLOCK_SIZE..])
  }

  lemma {:induction false} CbcRoundTrip(c: Crypto, key: Bytes, iv: Bytes, plain: Bytes)
    requires |iv| == BLOCK_SIZE && |plain| % BLOCK_SIZE == 0
    ensures CbcDecrypt(c, key, iv, CbcEncrypt(c, key, iv, plain)) == plain
    decreases |plain|
  {
    if plain != [] {
      var head, rest := plain[..BLOCK_SIZE], plain[BLOCK_SIZE..];
      var block := c.encryptBlock(key, XorBytes(head, iv));
      var chained := CbcEncrypt(c, key, block, rest);
      CbcRoundTrip(c, key, block, rest);
      XorBytesTwice(head, iv);
      assert CbcEncrypt(c, key, iv, plain) == block + chained;
      assert (block + chained)[..BLOCK_SIZE] == block && (block + chained)[BLOCK_SIZE..] == chained;
      assert plain == head + rest;
    }
  }

  // ----- the payload -----

  /** The IV is drawn from the system's random source, which may fail. */
  function Encrypt(c: Crypto, key: Bytes, plain: Bytes, iv: Option<Bytes>): (r: Result<Bytes, CipherError>)
    requires |key| >= BLOCK_SIZE
    requires iv.Some? ==> |iv.value| == BLOCK_SIZE
  {
    match iv
    case None => Err(RandomFailed)
    case Some(v) =>
      PadShape(plain);
      Ok(v + CbcEncrypt(c, key[..BLOCK_SIZE], v, Pad(plain)))
  }

  function Decrypt(c: Crypto, key: Bytes, data: Bytes): Result<Bytes, CipherError>
    requires |key| >= BLOCK_SIZE
  {
    if |data| < BLOCK_SIZE then
      Err(DataTooShort)
    else
      var iv, cipher := data[..BLOCK_SIZE], data[BLOCK_SIZE..];
      if |cipher| % BLOCK_SIZE != 0 then Err(NotAligned)
      else Unpad(CbcDecrypt(c, key[..BLOCK_SIZE], iv, cipher))
  }

  /** Decryption undoes encryption for every message and every IV, and the payload is one IV
      block longer than the padded message. */
  lemma PayloadRoundTrip(c: Crypto, key: Bytes, plain: Bytes, iv: Bytes)
    requires |key| >= BLOCK_SIZE && |iv| == BLOCK_SIZE
    ensures var e := Encrypt(c, key, plain, Some(iv));
      && e.Ok?
      && |e.value| == BLOCK_SIZE + |Pad(plain)|
      && Decrypt(c, key, e.value) == Ok(plain)
  {
    PadShape(plain);
    var cipher := CbcEncrypt(c, key[..BLOCK_SIZE], iv, Pad(plain));
    assert (iv + cipher)[..BLOCK_SIZE] == iv && (iv + cipher)[BLOCK_SIZE..] == cipher;
    CbcRoundTrip(c, key[..BLOCK_SIZE], iv, Pad(plain));
    UnpadPad(plain);
  }

  /** The opened message is at least an IV and a count shorter than the payload. */
  lemma DecryptShortens(c: Crypto, key: Bytes, data: Bytes)
    requires |key| >= BLOCK_SIZE && Decrypt(c, key, data).Ok?
    ensures |Decrypt(c, key, data).value| + BLOCK_SIZE + 1 <= |data|
  {
  }

  // ----- on the wire -----

  function BlockAt(s: Bytes, i: nat): (b: Bytes)
    requires 16 * (i + 1) <= |s|
    ensures |b| == 16
  {
    s[16 * i..16 * (i + 1)]
  }

  lemma BlockAppend(a: Bytes, b: Bytes)
    requires |a| == 16
    ensures forall i: nat :: 16 * (i + 1) <= |b| ==> BlockAt(a + b, i + 1) == BlockAt(b, i)
    ensures BlockAt(a + b, 0) == a
  {
    forall i: nat | 16 * (i + 1) <= |b| ensures BlockAt(a + b, i + 1) == BlockAt(b, i) {
      assert (a + b)[16 * (i + 1)..16 * (i + 2)] == b[16 * i..16 * (i + 1)];
    }
    assert (a + b)[..16] == a;
  }

  /** Each block is the cipher of its plaintext masked with the block before it, the first with
      the IV. */
  lemma {:induction false} CbcChains(c: Crypto, key: Bytes, iv: Bytes, plain: Bytes, i: nat)
    requires |iv| == BLOCK_SIZE && |plain| % BLOCK_SIZE == 0 && 16 * (i + 1) <= |plain|
    ensures var e := CbcEncrypt(c, key, iv, plain);
      BlockAt(e, i) == c.encryptBlock(key, XorBytes(BlockAt(plain, i), if i == 0 then iv else BlockAt(e, i - 1)))
    decreases i
  {
    var first, rest := plain[..BLOCK_SIZE], plain[BLOCK_SIZE..];
    var block := c.encryptBlock(key, XorBytes(first, iv));
    assert first + rest == plain;
    BlockAppend(first, rest);
    BlockAppend(block, CbcEncrypt(c, key, block, rest));
    if i > 0 {
      CbcChains(c, key, block, rest, i - 1);
    }
  }

  /** The payload: the IV in the clear, then the padded message, each block chained to the one
      before it in the payload, under the first 16 bytes of the key. */
  lemma PayloadOnWire(c: Crypto, key: Bytes, plain: Bytes, iv: Bytes, i: nat)
    requires |key| >= BLOCK_SIZE && |iv| == BLOCK_SIZE && 16 * (i + 1) <= |Pad(plain)|
    ensures Encrypt(c, key, plain, Some(iv)).Ok?
    ensures var e := Encrypt(c, key, plain, Some(iv)).value;
      && |e| == 16 + |Pad(plain)| && e[..16] == iv
      && BlockAt(e, i + 1) == c.encryptBlock(key[..16], XorBytes(BlockAt(Pad(plain), i), BlockAt(e, i)))
  {
    PadShape(plain);
    CbcChains(c, key[..BLOCK_SIZE], iv, Pad(plain), i);
    var cipher := CbcEncrypt(c, key[..BLOCK_SIZE], iv, Pad(plain));
    assert Encrypt(c, key, plain, Some(iv)) == Ok(iv + cipher);
    BlockAppend(iv, cipher);
    assert (iv + cipher)[..16] == iv;
  }

  /** Decryption fails on a payload shorter than an IV or not of whole blocks, and otherwise only
      on a count that leaves nothing. */
  lemma DecryptErrors(c: Crypto, key: Bytes, data: Bytes)
    requires |key| >= BLOCK_SIZE
    ensures var r := Decrypt(c, key, data);
      && (r == Err(DataTooShort) <==> |data| < 16)
      && (r == Err(NotAligned) <==> |data| >= 16 && |data| % 16 != 0)
      && (r == Err(EmptyData) <==> |data| == 16)
  {
  }
}
