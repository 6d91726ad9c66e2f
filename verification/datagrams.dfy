/** The v2.0 datagrams that leave the client, byte by byte: where each field
    stands, and over what and under which key the payload is encrypted and the
    packet is sealed (sections 13.6, 13.28.4 and 13.29 of IPMI v2.0). Nothing here
    goes through the functions that build the packets. */
module Datagrams {
  import opened Bytes
  import opened Crypto
  import opened Handshake
  import opened Packets

  // ----- the integrity code -----

  /** Section 13.28.4: the datagram ends in the code, under the key, of every byte
      between the four of the RMCP header and the code. */
  ghost predicate IsSealed(c: Suite, integrityAlg: byte, key: bytes, d: bytes)
  {
    var n := if integrityAlg == 1 then 12 else 16;
    |d| >= 4 + n && IsIntegrityCode(c, integrityAlg, d[4..|d| - n], key, d[|d| - n..])
  }

  /** What each integrity algorithm makes of an input: nothing for none, an HMAC
      under K1 for 1, 2 and 4, the digest between two passwords for 3, and an
      error for any other. */
  lemma CodeOfAlgorithm(e: Env, v: V20, input: bytes)
    ensures var r, alg, key := IntegrityCode(e, v, input), v.algs.integrity, if v.k1.Some? then v.k1.value else [];
      && (alg == 0 ==> r == Ok([]))
      && (alg in {1, 2, 4} ==> r.Ok? && IsIntegrityCode(e.crypto, alg, input, key, r.value))
      && (alg == 3 ==> r == Ok(e.crypto.md5(e.password + input + e.password)))
      && (alg > 4 ==> r == Err)
  {
    if v.algs.integrity in {1, 2, 4} {
      var key := if v.k1.Some? then v.k1.value else [];
      IntegrityHmacIsCode(e.crypto, v.algs.integrity, input, key, IntegrityCode(e, v, input).value);
    }
  }

  /** Every packet of an Active session with usable keys is sealed under the
      session's K1, unless the session id is 0. */
  lemma PacketIsSealed(e: Env, v: V20, payloadType: PayloadType, raw: bytes, iv: Block)
    requires v.state == Active && KeysUsable(v) && v.bmcSessionID != 0
    ensures var r := GenSession20(e, v, payloadType, raw, iv).1;
      r.Ok? ==> IsSealed(e.crypto, v.algs.integrity, v.k1.value, PackIpmi20(r.value))
  {
    hide EncryptPayload, GenTrailer, TrailerFits, IntegrityCode, IsIntegrityCode, PackHeader20, PackSession20;
    var r := GenSession20(e, v, payloadType, raw, iv).1;
    if r.Ok? {
      var w, s := GenSession20(e, v, payloadType, raw, iv).0, r.value;
      PacketKeepsKeys(e, v, payloadType, raw, iv);
      TrailerIsFit(e, w, v, s.header, s.payload);
      FitIsSealed(e, v, s);
    }
  }

  lemma FitIsSealed(e: Env, v: V20, s: Session20)
    requires KeysUsable(v) && v.state == Active && s.trailer.Some? && TrailerFits(e, v, s)
    ensures IsSealed(e.crypto, v.algs.integrity, v.k1.value, PackIpmi20(s))
  {
    hide IntegrityCode, IsIntegrityCode, PackHeader20, Covered;
    var d, code := PackIpmi20(s), s.trailer.value.authCode;
    CodeCovers(e, v, s);
    CodeOfAlgorithm(e, v, d[4..|d| - |code|]);
    assert d[|d| - |code|..] == code;
  }

  // ----- the header and the frame -----

  /** The IPMI class frame of RMCP: version 6, no acknowledge, class 7. */
  ghost predicate IsFramed(d: bytes)
  {
    |d| >= 4 && d[0] == 0x06 && d[1] == 0x00 && d[2] == 0xff && d[3] == 0x07
  }

  /** Table 13-8 of IPMI v2.0: authentication type 06h, the payload type under the encrypted and
      the authenticated bit, the OEM fields of an OEM payload, the session id, the
      sequence number and the payload's length, and then the payload. */
  ghost predicate HasHeader20(d: bytes, h: Header20, payload: bytes)
  {
    var start: nat := if h.payloadType == 0x02 then 22 else 16;
    && |d| >= start + |payload|
    && d[4] == 0x06
    && d[5] == (if h.encrypted then 0x80 else 0x00) + (if h.authenticated then 0x40 else 0x00) + h.payloadType
    && (h.payloadType == 0x02 ==> U32At(d, 6) == h.oemIANA && U16At(d, 10) == h.oemPayloadID)
    && U32At(d, start - 10) == h.sessionID && U32At(d, start - 6) == h.sequence
    && U16At(d, start - 2) == |payload| % 0x1_0000
    && d[start..start + |payload|] == payload
  }

  /** Behind the payload: nothing, or up to three bytes FFh that make the packet a
      multiple of four bytes, their number, 07h and the code. */
  ghost predicate HasTrailer20(d: bytes, end: nat, code: Option<bytes>)
  {
    if code.None? then |d| == end
    else
      exists p: nat :: p < 4 && (end - 4 + p + 2) % 4 == 0 && IsTrailer20(d, end, p, code.value)
  }

  ghost predicate IsTrailer20(d: bytes, end: nat, p: nat, code: bytes)
  {
    && |d| == end + p + 2 + |code|
    && (forall k :: end <= k < end + p ==> d[k] == 0xff)
    && d[end + p] == p && d[end + p + 1] == 0x07 && d[end + p + 2..] == code
  }

  lemma FrameLayout(s: Session20)
    ensures var d := PackIpmi20(s); IsFramed(d) && d[4..] == PackSession20(s)
  {}

  /** A packet with an RMCP+ header has its fields there, whatever they are. */
  lemma HeaderLayout(s: Session20)
    requires s.header.authType == 6 && s.header.payloadLength == |s.payload| % 0x1_0000
    ensures HasHeader20(PackIpmi20(s), s.header, s.payload)
  {
    hide LE32, LE16, U32At, U16At, PackTrailer;
    var d, h := PackIpmi20(s), s.header;
    var n, oem := HeaderSize(h.payloadType), OemFields(h);
    var tail := TailBytes(h.sessionID, h.sequence, h.payloadLength);
    var trailer := if s.trailer.Some? then PackTrailer(s.trailer.value) else [];
    assert d == PackRmcpHeader(IPMI_HEADER) + [h.authType, TypeByte(h)] + oem + tail + s.payload + trailer;
    assert d[n - 6..n + 4] == tail;
    TailFields(d, n - 6, h.sessionID, h.sequence, h.payloadLength);
    assert d[n + 4..n + 4 + |s.payload|] == s.payload;
    if h.payloadType == 0x02 {
      OemLayout(d, h);
    }
  }

  lemma OemLayout(d: bytes, h: Header20)
    requires |d| >= 12 && d[6..12] == LE32(h.oemIANA) + LE16(h.oemPayloadID)
    ensures U32At(d, 6) == h.oemIANA && U16At(d, 10) == h.oemPayloadID
  {
    hide LE32, LE16, U32At, U16At;
    var oem := d[6..12];
    assert d[6..10] == oem[..4] && d[10..12] == oem[4..];
    LE32RoundTrip(h.oemIANA, d, 6);
    LE16RoundTrip(h.oemPayloadID, d, 10);
  }

  lemma TrailerLayout(e: Env, v: V20, s: Session20)
    requires s.trailer.Some? && TrailerFits(e, v, s)
    ensures var d, end := PackIpmi20(s), 4 + HeaderSize(s.header.payloadType) + |s.payload|;
      HasTrailer20(d, end, Some(s.trailer.value.authCode))
  {
    hide IntegrityCode, PackHeader20, PackSession20, PackRmcpHeader, IsTrailer20;
    var head, code := PackHeader20(s.header), s.trailer.value.authCode;
    var p := TrailerPadLength(|head|, |s.payload|);
    BehindPayload(PackRmcpHeader(IPMI_HEADER) + head + s.payload, p, code);
    Regroup(PackRmcpHeader(IPMI_HEADER), head, s.payload, Fill(0xff, p), [p, NEXT_HEADER], code);
  }

  lemma Regroup(a: bytes, b: bytes, c: bytes, d: bytes, e: bytes, f: bytes)
    ensures a + (b + c + d + e + f) == a + b + c + d + e + f
  {}

  lemma BehindPayload(before: bytes, p: byte, code: bytes)
    ensures IsTrailer20(before + Fill(0xff, p) + [p, NEXT_HEADER] + code, |before|, p, code)
  {
    var d, end := before + Fill(0xff, p) + [p, NEXT_HEADER] + code, |before|;
    forall k | end <= k < end + p
      ensures d[k] == 0xff
    {
      assert d[k] == Fill(0xff, p)[k - end];
    }
  }

  // ----- the encrypted payload -----

  /** Section 13.29: the payload, bytes that count up from 1, and their number,
      in the fewest whole blocks. */
  ghost predicate IsPaddedOut(plain: bytes, raw: bytes)
  {
    && |plain| % 16 == 0 && |raw| < |plain| <= |raw| + 16
    && plain[..|raw|] == raw
    && (forall k :: |raw| <= k < |plain| - 1 ==> plain[k] as int == k - |raw| + 1)
    && plain[|plain| - 1] as int == |plain| - 1 - |raw|
  }

  /** Each encrypted block is that of the plain one XORed with what stands in front. */
  ghost predicate IsCbcBlock(c: Suite, key: Block, plain: bytes, payload: bytes, i: nat)
    requires 16 * i + 16 <= |plain| && |payload| == |plain| + 16
  {
    var block: Block, before: Block := plain[16 * i..16 * i + 16], payload[16 * i..16 * i + 16];
    payload[16 * i + 16..16 * i + 32] == c.aesEncrypt(key, seq(16, k requires 0 <= k < 16 => Xor(block[k], before[k])))
  }

  /** The vector, and behind it the padded payload in CBC mode. */
  ghost predicate IsAesPayload(c: Suite, key: Block, raw: bytes, iv: Block, payload: bytes)
  {
    && |payload| >= 16 && payload[..16] == iv
    && exists plain: bytes ::
         && IsPaddedOut(plain, raw) && |payload| == |plain| + 16
         && forall i: nat | 16 * i + 16 <= |plain| :: IsCbcBlock(c, key, plain, payload, i)
  }

  /** The accumulated size, most significant byte first, the vector in the first
      payload only, and the encrypted bytes. */
  ghost predicate IsRc4Payload(c: Suite, key: bytes, size: uint32, raw: bytes, iv: Block, payload: bytes)
  {
    var start := if size == 0 then 20 else 4;
    && |payload| >= start
    && payload[0] as int * 0x100_0000 + payload[1] as int * 0x1_0000 + payload[2] as int * 0x100 + payload[3] as int == size
    && (size == 0 ==> payload[4..20] == iv)
    && payload[start..] == c.rc4(key, raw)
  }

  /** By confidentiality algorithm: in clear, AES under the front of K2, or RC4
      under the front of K2, of 16 or of 5 bytes. */
  ghost predicate IsPayloadFor(c: Suite, v: V20, raw: bytes, iv: Block, payload: bytes)
    requires v.k2.Some? && |v.k2.value| >= 16
  {
    || (v.algs.crypt == 0 && payload == raw)
    || (v.algs.crypt == 1 && IsAesPayload(c, v.k2.value[..16], raw, iv, payload))
    || (v.algs.crypt == 2 && IsRc4Payload(c, v.k2.value[..16], v.accumulatedPayloadSize, raw, iv, payload))
    || (v.algs.crypt == 3 && IsRc4Payload(c, v.k2.value[..5], v.accumulatedPayloadSize, raw, iv, payload))
  }

  lemma AesLayout(c: Suite, key: Block, raw: bytes, iv: Block)
    ensures IsAesPayload(c, key, raw, iv, iv + CbcEncrypt(c, key, iv, AesPadded(raw)))
  {
    hide CbcEncrypt, AesPadded, Xor;
    var plain := AesPadded(raw);
    var payload := iv + CbcEncrypt(c, key, iv, plain);
    PaddingCountsUp(raw);
    assert IsPaddedOut(plain, raw);
    forall i: nat | 16 * i + 16 <= |plain|
      ensures IsCbcBlock(c, key, plain, payload, i)
    {
      CbcBlock(c, key, iv, plain, i);
    }
  }

  lemma CbcBlock(c: Suite, key: Block, iv: Block, plain: bytes, i: nat)
    requires |plain| % 16 == 0 && 16 * i + 16 <= |plain|
    ensures IsCbcBlock(c, key, plain, iv + CbcEncrypt(c, key, iv, plain), i)
  {
    hide CbcEncrypt, Xor;
    CbcChains(c, key, iv, plain, i);
  }

  lemma Rc4Layout(c: Suite, key: bytes, size: uint32, raw: bytes, iv: Block)
    ensures IsRc4Payload(c, key, size, raw, iv, BE32(size) + (if size == 0 then iv else []) + c.rc4(key, raw))
  {
    var b := BE32(size);
    assert b[0] as int * 0x100_0000 + b[1] as int * 0x1_0000 + b[2] as int * 0x100 + b[3] as int == size;
    var payload := b + (if size == 0 then iv else []) + c.rc4(key, raw);
    assert payload[..4] == b;
    if size == 0 {
      assert payload[4..20] == iv && payload[20..] == c.rc4(key, raw);
    } else {
      assert payload[4..] == c.rc4(key, raw);
    }
  }

  /** Encryption gives that payload for the four algorithms, and fails for any other. */
  lemma PayloadLayout(c: Suite, v: V20, raw: bytes, iv: Block)
    requires v.k2.Some? && |v.k2.value| >= 16
    ensures var r := EncryptPayload(c, v, raw, iv).1;
      if v.algs.crypt <= 3 then r.Ok? && IsPayloadFor(c, v, raw, iv, r.value) else r == Err
  {
    hide IsAesPayload, IsRc4Payload, CbcEncrypt, BE32, AesPadded, Rc4Key;
    if v.algs.crypt == 1 {
      AesLayout(c, v.k2.value[..16], raw, iv);
    } else if v.algs.crypt in {2, 3} {
      var w := EncryptPayload(c, v, raw, iv).0;
      Rc4KeyIgnoresVector(w, w.rc4EncryptIV);
      Rc4Layout(c, Rc4Key(w, w.rc4EncryptIV), v.accumulatedPayloadSize, raw, iv);
    }
  }

  // ----- whole datagrams -----

  /** In an Active session with usable keys and any of the four algorithms every
      raw payload gets its datagram: marked encrypted and authenticated, with the
      managed system's session id and the next sequence number, its payload
      encrypted under K2, its trailer sealed under K1. */
  lemma SessionDatagram(e: Env, v: V20, payloadType: PayloadType, raw: bytes, iv: Block)
    requires v.state == Active && KeysUsable(v)
    ensures var r := GenSession20(e, v, payloadType, raw, iv).1;
      if v.algs.crypt > 3 then r == Err
      else
        && r.Ok?
        && var d, payload := PackIpmi20(r.value), r.value.payload;
           var end := (if payloadType == 2 then 22 else 16) + |payload|;
        && IsFramed(d)
        && HasHeader20(d, Header20(6, true, true, payloadType, 0, 0, v.bmcSessionID, (v.sequence + 1) % 0x1_0000_0000,
                                   |payload| % 0x1_0000), payload)
        && IsPayloadFor(e.crypto, v, raw, iv, payload)
        && (if v.bmcSessionID == 0 then HasTrailer20(d, end, None)
            else (exists code :: HasTrailer20(d, end, Some(code)))
                 && IsSealed(e.crypto, v.algs.integrity, v.k1.value, d))
  {
    hide EncryptPayload, IsPayloadFor, GenSession20, HasHeader20, HasTrailer20, IsSealed, KeysUsable, TrailerFits;
    hide PackHeader20, PackSession20;
    assert v.k1.Some? && v.k2.Some? && |v.k2.value| >= 16 by { KeysAreThere(v); }
    PayloadLayout(e.crypto, v, raw, iv);
    PacketParts(e, v, payloadType, raw, iv);
    if v.algs.crypt <= 3 {
      var s := GenSession20(e, v, payloadType, raw, iv).1.value;
      FrameLayout(s);
      HeaderLayout(s);
      if v.bmcSessionID != 0 {
        TrailerLayout(e, v, s);
        PacketIsSealed(e, v, payloadType, raw, iv);
      } else {
        NoTrailer(s);
      }
    }
  }

  lemma NoTrailer(s: Session20)
    requires s.trailer.None?
    ensures HasTrailer20(PackIpmi20(s), 4 + HeaderSize(s.header.payloadType) + |s.payload|, None)
  {}

  /** The packet's header, payload and trailer; the raw payload is encrypted as
      it would be before the sequence number goes up. */
  lemma PacketParts(e: Env, v: V20, payloadType: PayloadType, raw: bytes, iv: Block)
    requires v.state == Active && KeysUsable(v)
    ensures var r, enc := GenSession20(e, v, payloadType, raw, iv).1, EncryptPayload(e.crypto, v, raw, iv).1;
      && (enc.Err? ==> r == Err)
      && (enc.Ok? ==>
        && r.Ok?
        && var s, payload := r.value, enc.value;
        && s.header == Header20(AUTH_TYPE_RMCP_PLUS, true, true, payloadType, 0, 0, v.bmcSessionID,
                                (v.sequence + 1) % 0x1_0000_0000, |payload| % 0x1_0000)
        && s.payload == payload
        && (s.trailer.Some? <==> v.bmcSessionID != 0)
        && (s.trailer.Some? ==> TrailerFits(e, v, s)))
  {
    hide EncryptPayload, GenTrailer, TrailerFits, PackHeader20, KeysUsable;
    var v1 := v.(sequence := (v.sequence + 1) % 0x1_0000_0000);
    EncryptionKeeps(e.crypto, v, v1, raw, iv);
    var (v2, enc) := EncryptPayload(e.crypto, v1, raw, iv);
    if enc.Ok? {
      var h := Header20(AUTH_TYPE_RMCP_PLUS, true, true, payloadType, 0, 0, v.bmcSessionID, v1.sequence,
                        |enc.value| % 0x1_0000);
      TrailerIsMade(e, v2, PackHeader20(h), enc.value);
      TrailerIsFit(e, v2, v, h, enc.value);
    }
  }

  lemma EncryptionKeeps(c: Suite, v: V20, v1: V20, raw: bytes, iv: Block)
    requires v1 == v.(sequence := v1.sequence)
    ensures var (v2, enc) := EncryptPayload(c, v1, raw, iv);
      && enc == EncryptPayload(c, v, raw, iv).1
      && v2.sequence == v1.sequence && v2.state == v.state && v2.algs == v.algs && v2.k1 == v.k1
      && v2.bmcSessionID == v.bmcSessionID
      && (KeysUsable(v) ==> KeysUsable(v2))
  {
    hide CbcEncrypt, BE32, AesPadded;
  }

  lemma KeysAreThere(v: V20)
    requires v.state == Active && KeysUsable(v)
    ensures v.k1.Some? && v.k2.Some? && |v.k2.value| >= 16
  {}

  /** Outside an Active session the payload goes out in clear, with neither bit,
      session id and sequence number 0, and nothing behind it. */
  lemma SetupDatagram(e: Env, v: V20, payloadType: PayloadType, raw: bytes, iv: Block)
    requires v.state != Active
    ensures var r := GenSession20(e, v, payloadType, raw, iv).1;
      && r.Ok?
      && var d := PackIpmi20(r.value);
      && IsFramed(d)
      && HasHeader20(d, Header20(6, false, false, payloadType, 0, 0, 0, 0, |raw| % 0x1_0000), raw)
      && HasTrailer20(d, (if payloadType == 2 then 22 else 16) + |raw|, None)
  {
    hide HasHeader20, HasTrailer20, PackHeader20, PackSession20;
    var s := GenSession20(e, v, payloadType, raw, iv).1.value;
    FrameLayout(s);
    HeaderLayout(s);
    NoTrailer(s);
  }
}
