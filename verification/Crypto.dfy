/**
 The cryptographic primitives the Go standard library supplies. They stay abstract: a proof
 may use the length of a digest and that a block cipher undoes itself, nothing else.
 */
module Crypto {
  import opened Bytes

  const BLOCK_SIZE := 16
  const DIGEST_SIZE := 20

  datatype Primitives = Primitives(
    hmacSha1: (Bytes, Bytes) -> Bytes,
    encryptBlock: (Bytes, Bytes) -> Bytes,
    decryptBlock: (Bytes, Bytes) -> Bytes,
    md5: Bytes -> Bytes)

  ghost predicate WellBehaved(p: Primitives) {
    && (forall key, msg :: |p.hmacSha1(key, msg)| == DIGEST_SIZE)
    && (forall key, block :: |block| == BLOCK_SIZE ==>
          |p.encryptBlock(key, block)| == BLOCK_SIZE && p.decryptBlock(key, p.encryptBlock(key, block)) == block)
    && (forall key, block :: |block| == BLOCK_SIZE ==> |p.decryptBlock(key, block)| == BLOCK_SIZE)
    && (forall msg :: |p.md5(msg)| == 16)
  }

  type Crypto = p: Primitives | WellBehaved(p)
    witness Primitives((key, msg) => seq(20, _ => 0), (key, block) => block, (key, block) => block, msg => seq(16, _ => 0))

  function Hmac(c: Crypto, key: Bytes, msg: Bytes): (mac: Bytes)
    ensures |mac| == DIGEST_SIZE
  {
    c.hmacSha1(key, msg)
  }
}
