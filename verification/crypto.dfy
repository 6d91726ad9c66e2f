/** The cryptographic primitives the client calls, as arbitrary functions of
    fixed output length, and what helpers_hmac.go builds on them: algorithm
    dispatch and AES in CBC mode. */
module Crypto {
  import opened Bytes

  type Block = b: bytes | |b| == 16 witness Fill(0, 16)
  type Mac20 = b: bytes | |b| == 20 witness Fill(0, 20)
  type Mac32 = b: bytes | |b| == 32 witness Fill(0, 32)

  /** HMACs take (data, key); block functions take (key, block). */
  datatype Primitives = Primitives(
    hmacMd5: (bytes, bytes) -> Block,
    hmacSha1: (bytes, bytes) -> Mac20,
    hmacSha256: (bytes, bytes) -> Mac32,
    md5: bytes -> Block,
    aesEncrypt: (Block, Block) -> Block,
    aesDecrypt: (Block, Block) -> Block,
    rc4: (bytes, bytes) -> bytes)

  /** All that is assumed of the primitives besides their output lengths. */
  ghost predicate Lawful(p: Primitives)
  {
    && (forall k: Block, b: Block :: p.aesDecrypt(k, p.aesEncrypt(k, b)) == b)
    && (forall k: bytes, d: bytes :: |p.rc4(k, d)| == |d| && p.rc4(k, p.rc4(k, d)) == d)
  }

  type Suite = p: Primitives | Lawful(p)
    witness Primitives((d, k) => Fill(0, 16), (d, k) => Fill(0, 20), (d, k) => Fill(0, 32),
                       d => Fill(0, 16), (k, b) => b, (k, b) => b, (k, d) => d)

  // ----- algorithm numbers (sections 13.28, 13.28.4 and 13.28.5 of IPMI v2.0) -----

  const RAKP_NONE: byte := 0x00
  const RAKP_HMAC_SHA1: byte := 0x01
  const RAKP_HMAC_MD5: byte := 0x02
  const RAKP_HMAC_SHA256: byte := 0x03

  const INTEGRITY_NONE: byte := 0x00
  const HMAC_SHA1_96: byte := 0x01
  const HMAC_MD5_128: byte := 0x02
  const MD5_128: byte := 0x03
  const HMAC_SHA256_128: byte := 0x04

  const CRYPT_NONE: byte := 0x00
  const AES_CBC_128: byte := 0x01
  const XRC4_128: byte := 0x02
  const XRC4_40: byte := 0x03

  /** generate_auth_hmac called with an authentication algorithm. */
  function AuthHmac(c: Suite, authAlg: byte, data: bytes, key: bytes): (r: Option<bytes>)
    ensures r.Some? <==> authAlg in {RAKP_HMAC_SHA1, RAKP_HMAC_MD5, RAKP_HMAC_SHA256}
    ensures r.Some? ==> |r.value| == AuthCodeLength(authAlg) >= 16
  {
    if authAlg == RAKP_HMAC_SHA1 then Some(c.hmacSha1(data, key))
    else if authAlg == RAKP_HMAC_MD5 then Some(c.hmacMd5(data, key))
    else if authAlg == RAKP_HMAC_SHA256 then Some(c.hmacSha256(data, key))
    else None
  }

  /** Bytes of key exchange code that RAKP Message 2 carries. */
  function AuthCodeLength(authAlg: byte): nat
  {
    if authAlg == RAKP_HMAC_MD5 then 16
    else if authAlg == RAKP_HMAC_SHA1 then 20
    else if authAlg == RAKP_HMAC_SHA256 then 32
    else 0
  }

  /** Bytes of integrity check value that RAKP Message 4 carries. */
  function CheckValueLength(authAlg: byte): nat
  {
    if authAlg == RAKP_HMAC_MD5 then 16
    else if authAlg == RAKP_HMAC_SHA1 then 12
    else if authAlg == RAKP_HMAC_SHA256 then 16
    else 0
  }

  /** generate_auth_hmac called with an integrity algorithm. */
  function IntegrityHmac(c: Suite, integrityAlg: byte, data: bytes, key: bytes): (r: Option<bytes>)
    ensures r.Some? <==> integrityAlg in {HMAC_SHA1_96, HMAC_MD5_128, HMAC_SHA256_128}
    ensures r.Some? ==> |r.value| >= 16
  {
    if integrityAlg == HMAC_SHA1_96 then Some(c.hmacSha1(data, key))
    else if integrityAlg == HMAC_MD5_128 then Some(c.hmacMd5(data, key))
    else if integrityAlg == HMAC_SHA256_128 then Some(c.hmacSha256(data, key))
    else None
  }

  /** Bytes an integrity algorithm puts on the wire. */
  function IntegrityLength(integrityAlg: byte): nat
  {
    if integrityAlg == HMAC_SHA1_96 then 12
    else if integrityAlg in {HMAC_MD5_128, MD5_128, HMAC_SHA256_128} then 16
    else 0
  }

  // ----- the same over the primitives, with the numbers of the specification -----

  /** Section 13.28: a key exchange code over the data under the key. */
  ghost predicate IsAuthCode(c: Suite, authAlg: byte, data: bytes, key: bytes, code: bytes)
  {
    || (authAlg == 1 && code == c.hmacSha1(data, key))
    || (authAlg == 2 && code == c.hmacMd5(data, key))
    || (authAlg == 3 && code == c.hmacSha256(data, key))
  }

  /** Section 13.28.4: an integrity code, cut to its length on the wire. */
  ghost predicate IsIntegrityCode(c: Suite, integrityAlg: byte, data: bytes, key: bytes, code: bytes)
  {
    || (integrityAlg == 1 && code == c.hmacSha1(data, key)[..12])
    || (integrityAlg == 2 && code == c.hmacMd5(data, key)[..16])
    || (integrityAlg == 4 && code == c.hmacSha256(data, key)[..16])
  }

  lemma AuthHmacIsCode(c: Suite, authAlg: byte, data: bytes, key: bytes, code: bytes)
    ensures AuthHmac(c, authAlg, data, key) == Some(code) <==> IsAuthCode(c, authAlg, data, key, code)
  {}

  lemma IntegrityHmacIsCode(c: Suite, integrityAlg: byte, data: bytes, key: bytes, code: bytes)
    ensures var mac := IntegrityHmac(c, integrityAlg, data, key);
      mac.Some? && code == mac.value[..IntegrityLength(integrityAlg)] <==> IsIntegrityCode(c, integrityAlg, data, key, code)
  {}

  // ----- AES in CBC mode -----

  function XorBlock(a: Block, b: Block): Block
  {
    seq(16, i requires 0 <= i < 16 => Xor(a[i], b[i]))
  }

  lemma XorBlockCancels(a: Block, b: Block)
    ensures XorBlock(XorBlock(a, b), b) == a
  {
    forall i | 0 <= i < 16
      ensures XorBlock(XorBlock(a, b), b)[i] == a[i]
    {
      XorCancels(a[i], b[i]);
    }
  }

  function CbcEncrypt(c: Suite, key: Block, iv: Block, plain: bytes): (r: bytes)
    requires |plain| % 16 == 0
    ensures |r| == |plain|
    decreases |plain|
  {
    if plain == [] then []
    else
      var first: Block := c.aesEncrypt(key, XorBlock(plain[..16], iv));
      first + CbcEncrypt(c, key, first, plain[16..])
  }

  function CbcDecrypt(c: Suite, key: Block, iv: Block, cipher: bytes): (r: bytes)
    requires |cipher| % 16 == 0
    ensures |r| == |cipher|
    decreases |cipher|
  {
    if cipher == [] then []
    else
      XorBlock(c.aesDecrypt(key, cipher[..16]), iv) + CbcDecrypt(c, key, cipher[..16], cipher[16..])
  }

  /** The last byte that CBC decryption yields comes from the last block and the
      byte in front of it. */
  lemma {:induction false} CbcLastByte(c: Suite, key: Block, iv: Block, cipher: bytes)
    requires |cipher| % 16 == 0 && cipher != []
    ensures var n, all := |cipher|, iv + cipher;
      CbcDecrypt(c, key, iv, cipher)[n - 1] == Xor(c.aesDecrypt(key, all[n..])[15], all[n - 1])
    decreases |cipher|
  {
    var n, all := |cipher|, iv + cipher;
    var first: Block, rest := cipher[..16], cipher[16..];
    if rest == [] {
      assert all[n..] == first && all[n - 1] == iv[15];
    } else {
      CbcLastByte(c, key, first, rest);
      assert first + rest == cipher && all[16..] == cipher;
      assert all[n..] == cipher[n - 16..] && all[n - 1] == cipher[n - 17];
    }
  }

  /** Each cipher block is the encryption of its plain block XORed with the cipher
      block before it, the first with the vector. */
  lemma {:induction false} CbcChains(c: Suite, key: Block, iv: Block, plain: bytes, i: nat)
    requires |plain| % 16 == 0 && 16 * i + 16 <= |plain|
    ensures var all := iv + CbcEncrypt(c, key, iv, plain);
      var block: Block, before: Block := plain[16 * i..16 * i + 16], all[16 * i..16 * i + 16];
      all[16 * i + 16..16 * i + 32] == c.aesEncrypt(key, seq(16, k requires 0 <= k < 16 => Xor(block[k], before[k])))
    decreases i
  {
    var p: Block := plain[..16];
    var first: Block := c.aesEncrypt(key, XorBlock(p, iv));
    var rest := CbcEncrypt(c, key, first, plain[16..]);
    var all := iv + CbcEncrypt(c, key, iv, plain);
    assert all == iv + first + rest;
    if i == 0 {
      assert all[0..16] == iv && all[16..32] == first;
      assert XorBlock(p, iv) == seq(16, k requires 0 <= k < 16 => Xor(p[k], iv[k]));
    } else {
      CbcChains(c, key, first, plain[16..], i - 1);
      var tail := first + rest;
      assert tail[16 * i - 16..16 * i] == all[16 * i..16 * i + 16];
      assert tail[16 * i..16 * i + 16] == all[16 * i + 16..16 * i + 32];
      assert plain[16..][16 * i - 16..16 * i] == plain[16 * i..16 * i + 16];
    }
  }

  /** CBC decryption undoes CBC encryption under the same key and vector. */
  lemma {:induction false} CbcRoundTrip(c: Suite, key: Block, iv: Block, plain: bytes)
    requires |plain| % 16 == 0
    ensures CbcDecrypt(c, key, iv, CbcEncrypt(c, key, iv, plain)) == plain
    decreases |plain|
  {
    if plain != [] {
      var p: Block := plain[..16];
      var first: Block := c.aesEncrypt(key, XorBlock(p, iv));
      var cipher := CbcEncrypt(c, key, iv, plain);
      assert cipher[..16] == first && cipher[16..] == CbcEncrypt(c, key, first, plain[16..]);
      XorBlockCancels(p, iv);
      CbcRoundTrip(c, key, first, plain[16..]);
      assert plain == p + plain[16..];
    }
  }
}
