/** RMCP, v1.5 and v2.0 session packets: their wire format both ways, payload
    encryption and the integrity trailer (types_rmcp.go, types_session.go,
    client_auth_code.go), as functions over byte sequences. */
module Packets {
  import opened Bytes
  import opened Crypto
  import opened Handshake

  // ----- RMCP header -----

  const CLASS_ASF: byte := 6
  const CLASS_IPMI: byte := 7

  type Class = x: byte | x < 128

  datatype RmcpHeader = RmcpHeader(version: byte, sequenceNumber: byte, ack: bool, class_: Class)

  const IPMI_HEADER: RmcpHeader := RmcpHeader(6, 0xff, false, CLASS_IPMI)

  function PackRmcpHeader(h: RmcpHeader): (b: bytes)
    ensures |b| == 4
  {
    [h.version, 0, h.sequenceNumber, (if h.ack then 0x80 else 0) + h.class_]
  }

  function UnpackRmcpHeader(b: bytes): RmcpHeader
    requires |b| >= 4
  {
    RmcpHeader(b[0], b[2], b[3] >= 0x80, b[3] % 0x80)
  }

  // ----- v2.0 session header -----

  const AUTH_TYPE_NONE: byte := 0x00
  const AUTH_TYPE_MD2: byte := 0x01
  const AUTH_TYPE_MD5: byte := 0x02
  const AUTH_TYPE_PASSWORD: byte := 0x04
  const AUTH_TYPE_OEM: byte := 0x05
  const AUTH_TYPE_RMCP_PLUS: byte := 0x06

  /** Six bits; every payload type of types_payload.go is below 0x40. */
  type PayloadType = x: byte | x < 0x40

  const PAYLOAD_IPMI: PayloadType := 0x00
  const PAYLOAD_OEM: PayloadType := 0x02

  datatype Header20 = Header20(authType: byte, encrypted: bool, authenticated: bool, payloadType: PayloadType,
                               oemIANA: uint32, oemPayloadID: uint16,
                               sessionID: uint32, sequence: uint32, payloadLength: uint16)

  function HeaderSize(payloadType: PayloadType): nat
  {
    if payloadType == PAYLOAD_OEM then 18 else 12
  }

  function TypeByte(h: Header20): byte
  {
    (if h.encrypted then 0x80 else 0) + (if h.authenticated then 0x40 else 0) + h.payloadType
  }

  function OemFields(h: Header20): bytes
  {
    if h.payloadType == PAYLOAD_OEM then LE32(h.oemIANA) + LE16(h.oemPayloadID) else []
  }

  function PackHeader20(h: Header20): (b: bytes)
    ensures |b| == HeaderSize(h.payloadType)
  {
    [h.authType, TypeByte(h)] + OemFields(h) + TailBytes(h.sessionID, h.sequence, h.payloadLength)
  }

  function UnpackHeader20(msg: bytes): (r: Option<Header20>)
    ensures r.Some? ==> |msg| >= HeaderSize(r.value.payloadType) && Sendable(r.value)
  {
    if |msg| < 12 then None
    else
      var t: PayloadType := msg[1] % 0x40;
      if |msg| < HeaderSize(t) then None
      else
        var oem, i := t == PAYLOAD_OEM, HeaderSize(t) - 10;
        Some(Header20(msg[0], msg[1] >= 0x80, msg[1] / 0x40 % 2 == 1, t,
                      if oem then U32At(msg, 2) else 0, if oem then U16At(msg, 6) else 0,
                      U32At(msg, i), U32At(msg, i + 4), U16At(msg, i + 8)))
  }

  /** Without an OEM payload the OEM fields are not on the wire. */
  predicate Sendable(h: Header20)
  {
    h.payloadType != PAYLOAD_OEM ==> h.oemIANA == 0 && h.oemPayloadID == 0
  }

  function TailBytes(sessionID: uint32, sequence: uint32, length: uint16): (b: bytes)
    ensures |b| == 10
    ensures b[..4] == LE32(sessionID) && b[4..8] == LE32(sequence) && b[8..] == LE16(length)
  {
    LE32(sessionID) + LE32(sequence) + LE16(length)
  }

  lemma TailFields(msg: bytes, i: nat, sessionID: uint32, sequence: uint32, length: uint16)
    requires i + 10 <= |msg| && msg[i..i + 10] == TailBytes(sessionID, sequence, length)
    ensures U32At(msg, i) == sessionID && U32At(msg, i + 4) == sequence && U16At(msg, i + 8) == length
  {
    var t := msg[i..i + 10];
    SliceOfSlice(msg, i, i + 10, 0, 4);
    LE32RoundTrip(sessionID, msg, i);
    SliceOfSlice(msg, i, i + 10, 4, 8);
    LE32RoundTrip(sequence, msg, i + 4);
    SliceOfSlice(msg, i, i + 10, 8, 10);
    LE16RoundTrip(length, msg, i + 8);
  }

  lemma TypeByteFields(h: Header20)
    ensures var t := TypeByte(h);
      (t >= 0x80) == h.encrypted && (t / 0x40 % 2 == 1) == h.authenticated && t % 0x40 == h.payloadType
  {}

  lemma OemRoundTrip(h: Header20, msg: bytes)
    requires h.payloadType == PAYLOAD_OEM && |msg| >= 18 && msg[2..8] == OemFields(h)
    ensures U32At(msg, 2) == h.oemIANA && U16At(msg, 6) == h.oemPayloadID
  {
    var t := msg[2..8];
    assert msg[2..6] == t[..4] == LE32(h.oemIANA);
    LE32RoundTrip(h.oemIANA, msg, 2);
    assert msg[6..8] == t[4..] == LE16(h.oemPayloadID);
    LE16RoundTrip(h.oemPayloadID, msg, 6);
  }

  /** Unpacking gives back a packed header, whatever follows it. */
  lemma HeaderRoundTrip(h: Header20, rest: bytes)
    requires Sendable(h)
    ensures UnpackHeader20(PackHeader20(h) + rest) == Some(h)
  {
    var msg, n, oem := PackHeader20(h) + rest, HeaderSize(h.payloadType), OemFields(h);
    var tail := TailBytes(h.sessionID, h.sequence, h.payloadLength);
    assert msg == [h.authType, TypeByte(h)] + oem + tail + rest;
    assert msg[n - 10..n] == tail;
    TailFields(msg, n - 10, h.sessionID, h.sequence, h.payloadLength);
    TypeByteFields(h);
    if h.payloadType == PAYLOAD_OEM {
      assert msg[2..8] == oem;
      OemRoundTrip(h, msg);
    }
  }

  // ----- v2.0 session trailer and session -----

  const NEXT_HEADER: byte := 0x07

  datatype Trailer = Trailer(pad: bytes, padLength: byte, nextHeader: byte, authCode: bytes)

  function PackTrailer(t: Trailer): bytes
  {
    t.pad + [t.padLength, t.nextHeader] + t.authCode
  }

  function UnpackTrailer(msg: bytes, off: nat, padSize: nat): Trailer
  {
    var off1 := if off + padSize > |msg| then off else off + padSize;
    var off2 := if off1 + 1 > |msg| then |msg| else off1 + 1;
    var off3 := if off2 + 1 > |msg| then |msg| else off2 + 1;
    Trailer(UnpackBytes(msg, off, padSize), UnpackUint8(msg, off1), UnpackUint8(msg, off2), Most(msg, off3, 16))
  }

  /** Pad bytes needed before the pad length and next header bytes. */
  function TrailerPadLength(headerLength: nat, payloadLength: nat): (p: nat)
    ensures p < 4 && (headerLength + payloadLength + p + 2) % 4 == 0
  {
    var rest := (headerLength + payloadLength + 1 + 1) % 4;
    if rest != 0 then 4 - rest else 0
  }

  datatype Session20 = Session20(header: Header20, payload: bytes, trailer: Option<Trailer>)

  function PackSession20(s: Session20): bytes
  {
    PackHeader20(s.header) + s.payload + (if s.trailer.Some? then PackTrailer(s.trailer.value) else [])
  }

  /** The trailer is present on authenticated packets within a session. */
  predicate HasTrailer(h: Header20)
  {
    h.authenticated && h.sessionID != 0
  }

  function UnpackSession20(msg: bytes): Option<Session20>
  {
    match UnpackHeader20(msg)
    case None => None
    case Some(h) =>
      var start, n := HeaderSize(h.payloadType), h.payloadLength as nat;
      if |msg| < start + n then None
      else
        var payload := msg[start..start + n];
        Some(Session20(h, payload,
                       if HasTrailer(h) then Some(UnpackTrailer(msg, start + n, TrailerPadLength(start, |payload|)))
                       else None))
  }

  /** What the sender of a packet guarantees about it. */
  predicate WellFormed(s: Session20)
  {
    && Sendable(s.header)
    && s.header.payloadLength == |s.payload|
    && (s.trailer.Some? <==> HasTrailer(s.header))
    && (s.trailer.Some? ==>
          && |s.trailer.value.pad| == TrailerPadLength(HeaderSize(s.header.payloadType), |s.payload|)
          && |s.trailer.value.authCode| <= 16)
  }

  lemma TrailerRoundTrip(t: Trailer, before: bytes)
    requires |t.authCode| <= 16
    ensures UnpackTrailer(before + PackTrailer(t), |before|, |t.pad|) == t
  {
    var msg, off := before + PackTrailer(t), |before|;
    assert msg[off..off + |t.pad|] == t.pad;
    assert msg[off + |t.pad|] == t.padLength && msg[off + |t.pad| + 1] == t.nextHeader;
    assert msg[off + |t.pad| + 2..] == t.authCode;
    assert Most(msg, off + |t.pad| + 2, 16) == t.authCode;
  }

  /** Header, payload, pad and a code of up to 16 bytes survive the wire, for
      both header sizes. */
  lemma SessionRoundTrip(s: Session20)
    requires WellFormed(s)
    ensures UnpackSession20(PackSession20(s)) == Some(s)
  {
    hide LE32, PackHeader20, UnpackHeader20, UnpackTrailer;
    var msg, start := PackSession20(s), HeaderSize(s.header.payloadType);
    var rest := s.payload + (if s.trailer.Some? then PackTrailer(s.trailer.value) else []);
    assert msg == PackHeader20(s.header) + rest;
    HeaderRoundTrip(s.header, rest);
    assert msg[start..start + |s.payload|] == s.payload;
    if s.trailer.Some? {
      TrailerRoundTrip(s.trailer.value, PackHeader20(s.header) + s.payload);
    }
  }

  // ----- v1.5 session -----

  datatype Header15 = Header15(authType: byte, sequence: uint32, sessionID: uint32, authCode: bytes, payloadLength: byte)

  datatype Session15 = Session15(header: Header15, payload: bytes)

  function PackHeader15(h: Header15): (b: bytes)
    ensures |b| == 10 + |h.authCode|
  {
    [h.authType] + LE32(h.sequence) + LE32(h.sessionID)
    + (if h.authType != AUTH_TYPE_NONE then h.authCode else Fill(0, |h.authCode|)) + [h.payloadLength]
  }

  function UnpackHeader15(msg: bytes): Option<Header15>
  {
    if |msg| < 10 then None
    else if msg[0] == AUTH_TYPE_NONE then Some(Header15(msg[0], U32At(msg, 1), U32At(msg, 5), [], msg[9]))
    else if |msg| < 26 then None
    else Some(Header15(msg[0], U32At(msg, 1), U32At(msg, 5), msg[9..25], msg[25]))
  }

  function PackSession15(s: Session15): bytes
  {
    PackHeader15(s.header) + s.payload
  }

  function UnpackSession15(msg: bytes): Option<Session15>
  {
    match UnpackHeader15(msg)
    case None => None
    case Some(h) =>
      var start, n := |PackHeader15(h)|, h.payloadLength as nat;
      if |msg| < start + n then None else Some(Session15(h, UnpackBytes(msg, start, n)))
  }

  lemma Header15RoundTrip(h: Header15, msg: bytes)
    requires if h.authType == AUTH_TYPE_NONE then h.authCode == [] else |h.authCode| == 16
    requires PackHeader15(h) <= msg
    ensures UnpackHeader15(msg) == Some(h)
  {
    var p := PackHeader15(h);
    assert msg[..|p|] == p;
    assert msg[0] == p[0] && msg[|p| - 1] == p[|p| - 1];
    assert msg[1..5] == p[1..5] == LE32(h.sequence);
    LE32RoundTrip(h.sequence, msg, 1);
    assert msg[5..9] == p[5..9] == LE32(h.sessionID);
    LE32RoundTrip(h.sessionID, msg, 5);
    assert msg[9..9 + |h.authCode|] == p[9..9 + |h.authCode|] == h.authCode;
  }

  // ----- RMCP packets -----

  datatype Asf = Asf(iana: uint32, messageType: byte, messageTag: byte, dataLength: byte, data: bytes)

  datatype Body = AsfBody(asf: Asf) | Body15(s15: Session15) | Body20(s20: Session20)

  datatype Rmcp = Rmcp(header: RmcpHeader, body: Body)

  function UnpackAsf(msg: bytes): Option<Asf>
  {
    if |msg| < 8 || |msg| < 8 + msg[7] as nat then None
    else Some(Asf(U32At(msg, 0), msg[4], msg[5], msg[7], msg[8..8 + msg[7] as nat]))
  }

  function UnpackRmcp(msg: bytes): Option<Rmcp>
  {
    if |msg| < 5 then None
    else
      var h := UnpackRmcpHeader(msg);
      if h.class_ == CLASS_ASF then
        match UnpackAsf(msg[4..]) case None => None case Some(a) => Some(Rmcp(h, AsfBody(a)))
      else if msg[4] == AUTH_TYPE_RMCP_PLUS then
        match UnpackSession20(msg[4..]) case None => None case Some(s) => Some(Rmcp(h, Body20(s)))
      else
        match UnpackSession15(msg[4..]) case None => None case Some(s) => Some(Rmcp(h, Body15(s)))
  }

  /** A packet of class IPMI, as BuildRmcpRequest sends it. */
  function PackIpmi15(s: Session15): bytes
  {
    PackRmcpHeader(IPMI_HEADER) + PackSession15(s)
  }

  function PackIpmi20(s: Session20): bytes
  {
    PackRmcpHeader(IPMI_HEADER) + PackSession20(s)
  }

  lemma Rmcp20RoundTrip(s: Session20)
    requires s.header.authType == AUTH_TYPE_RMCP_PLUS
    ensures var r := UnpackSession20(PackSession20(s));
      UnpackRmcp(PackIpmi20(s)) == if r.Some? then Some(Rmcp(IPMI_HEADER, Body20(r.value))) else None
  {
    var msg := PackIpmi20(s);
    assert msg[..4] == PackRmcpHeader(IPMI_HEADER);
    assert msg[4..] == PackSession20(s);
    assert msg[4] == PackHeader20(s.header)[0];
  }

  // ----- payload encryption -----

  /** The confidentiality trailer: pad bytes 1, 2, .. and their number, up to a
      multiple of the block size. */
  function AesPadLength(n: nat): (p: byte)
    ensures p < 16 && (n + p + 1) % 16 == 0
  {
    var mod := (n + 1) % 16;
    if mod > 0 then 16 - mod else 0
  }

  function AesPad(p: byte): (b: bytes)
    ensures |b| == p
  {
    seq(p, i requires 0 <= i < p => i + 1)
  }

  function AesPadded(raw: bytes): (b: bytes)
    ensures |b| % 16 == 0
    ensures |b| == |raw| / 16 * 16 + 16
  {
    raw + AesPad(AesPadLength(|raw|)) + [AesPadLength(|raw|)]
  }

  /** Section 13.29 of IPMI v2.0: the padded payload is the payload, bytes that
      count up from 1, and their number, in the fewest whole blocks. */
  lemma PaddingCountsUp(raw: bytes)
    ensures var padded := AesPadded(raw); var p := padded[|padded| - 1] as nat;
      && |padded| % 16 == 0 && |raw| < |padded| <= |raw| + 16
      && |padded| == |raw| + p + 1 && padded[..|raw|] == raw
      && forall k :: |raw| <= k < |raw| + p ==> padded[k] == k - |raw| + 1
  {
    var p := AesPadLength(|raw|);
    assert forall k :: |raw| <= k < |raw| + p ==> AesPadded(raw)[k] == AesPad(p)[k - |raw|];
  }

  /** md5.New().Sum(input) is input followed by the digest of nothing, so the
      RC4 key is the front of K2 and the vector. */
  function Rc4Key(v: V20, iv: Block): bytes
  {
    var keyRC := (if v.k2.Some? then v.k2.value else []) + iv;
    if v.algs.crypt == XRC4_40 then keyRC[..5] else keyRC[..16]
  }

  /** With K2 long enough the key does not depend on the vector at all. */
  lemma Rc4KeyIgnoresVector(v: V20, iv: Block)
    requires v.k2.Some? && |v.k2.value| >= 16
    ensures Rc4Key(v, iv) == if v.algs.crypt == XRC4_40 then v.k2.value[..5] else v.k2.value[..16]
  {
    var keyRC := v.k2.value + iv;
    assert keyRC[..16] == v.k2.value[..16] && keyRC[..5] == v.k2.value[..5];
  }

  function BE32(n: uint32): (b: bytes)
    ensures |b| == 4
  {
    [LE32(n)[3], LE32(n)[2], LE32(n)[1], LE32(n)[0]]
  }

  function EncryptPayload(c: Suite, v: V20, raw: bytes, iv: Block): (V20, Outcome<bytes>)
  {
    if v.algs.crypt == CRYPT_NONE then (v, Ok(raw))
    else if v.algs.crypt == AES_CBC_128 then
      if v.k2.None? || |v.k2.value| < 16 then (v, Panic)
      else (v, Ok(iv + CbcEncrypt(c, v.k2.value[..16], iv, AesPadded(raw))))
    else if v.algs.crypt in {XRC4_40, XRC4_128} then
      var first := v.accumulatedPayloadSize == 0;
      var w := v.(rc4EncryptIV := if first then iv else v.rc4EncryptIV,
                  accumulatedPayloadSize := (v.accumulatedPayloadSize + |raw|) % 0x1_0000_0000);
      var header := BE32(v.accumulatedPayloadSize) + (if first then iv else []);
      (w, Ok(header + c.rc4(Rc4Key(w, w.rc4EncryptIV), raw)))
    else (v, Err)
  }

  function DecryptPayload(c: Suite, v: V20, data: bytes): (V20, Outcome<bytes>)
  {
    if v.algs.crypt == CRYPT_NONE then (v, Ok(data))
    else if v.algs.crypt == AES_CBC_128 then
      if |data| <= 16 || |data| % 16 != 0 || v.k2.None? || |v.k2.value| < 16 then (v, Panic)
      else
        var d := CbcDecrypt(c, v.k2.value[..16], data[..16], data[16..]);
        var padLength := d[|d| - 1];
        if |d| < padLength as nat + 1 then (v, Panic) else (v, Ok(d[..|d| - padLength as nat - 1]))
    else if v.algs.crypt in {XRC4_40, XRC4_128} then
      if |data| < 20 then (v, Panic)
      else
        var w := if data[..4] == Fill(0, 4) then v.(rc4DecryptIV := data[4..20]) else v;
        (w, Ok(c.rc4(Rc4Key(w, w.rc4DecryptIV), data[20..])))
    else (v, Err)
  }

  // ----- integrity code and packet generation -----

  function IntegrityKey(v: V20): bytes
  {
    if v.k1.Some? then v.k1.value else []
  }

  function IntegrityCode(e: Env, v: V20, input: bytes): (r: Outcome<bytes>)
    ensures r.Ok? ==> |r.value| == IntegrityLength(v.algs.integrity)
  {
    var alg := v.algs.integrity;
    if alg == INTEGRITY_NONE then Ok([])
    else if alg == MD5_128 then Ok(e.crypto.md5(e.password + input + e.password))
    else
      var mac := IntegrityHmac(e.crypto, alg, input, IntegrityKey(v));
      if mac.None? then Err else Ok(mac.value[..IntegrityLength(alg)])
  }

  /** The bytes the integrity algorithm covers: from AuthType/Format up to the
      field before AuthCode (section 13.28.4). */
  function Covered(header: bytes, payload: bytes): (b: bytes)
    ensures |b| % 4 == 0
  {
    var p := TrailerPadLength(|header|, |payload|);
    header + payload + Fill(0xff, p) + [p, NEXT_HEADER]
  }

  function GenTrailer(e: Env, v: V20, header: bytes, payload: bytes): Outcome<Trailer>
  {
    var p := TrailerPadLength(|header|, |payload|);
    match IntegrityCode(e, v, Covered(header, payload))
    case Ok(code) => Ok(Trailer(Fill(0xff, p), p, NEXT_HEADER, code))
    case Err => Err
    case Panic => Panic
  }

  /** The header and payload with the trailer they need. */
  function Finish20(e: Env, v: V20, h: Header20, payload: bytes): Outcome<Session20>
  {
    if !HasTrailer(h) then Ok(Session20(h, payload, None))
    else
      match GenTrailer(e, v, PackHeader20(h), payload)
      case Ok(t) => Ok(Session20(h, payload, Some(t)))
      case Err => Err
      case Panic => Panic
  }

  function GenSession20(e: Env, v: V20, payloadType: PayloadType, raw: bytes, iv: Block): (V20, Outcome<Session20>)
  {
    var active := v.state == Active;
    var v1 := if active then v.(sequence := (v.sequence + 1) % 0x1_0000_0000) else v;
    var (v2, enc) := if active then EncryptPayload(e.crypto, v1, raw, iv) else (v1, Ok(raw));
    match enc
    case Err => (v2, Err)
    case Panic => (v2, Panic)
    case Ok(payload) =>
      var h := Header20(AUTH_TYPE_RMCP_PLUS, active, active, payloadType, 0, 0,
                        if active then v.bmcSessionID else 0, if active then v2.sequence else 0,
                        |payload| % 0x1_0000);
      (v2, Finish20(e, v2, h, payload))
  }

  // ----- the other end -----

  /** A managed system holding the session's algorithms and keys: it takes the
      packet apart, recomputes the code over the bytes it received in front of
      the AuthCode field, and decrypts. */
  function PeerReceive(e: Env, v: V20, datagram: bytes): Option<bytes>
  {
    match UnpackRmcp(datagram)
    case None => None
    case Some(r) =>
      if !r.body.Body20? then None
      else
        var s := r.body.s20;
        if HasTrailer(s.header) && !CodeMatches(e, v, datagram, s) then None
        else if !s.header.encrypted then Some(s.payload)
        else
          match DecryptPayload(e.crypto, v, s.payload).1
          case Ok(raw) => Some(raw)
          case _ => None
  }

  predicate CodeMatches(e: Env, v: V20, datagram: bytes, s: Session20)
  {
    && s.trailer.Some?
    && 4 + |s.trailer.value.authCode| <= |datagram|
    && IntegrityCode(e, v, datagram[4..|datagram| - |s.trailer.value.authCode|]) == Ok(s.trailer.value.authCode)
  }

  // ----- what a packet guarantees -----

  /** Decryption undoes encryption for AES-CBC-128 and for no encryption. */
  lemma DecryptUndoesEncrypt(c: Suite, v: V20, w: V20, raw: bytes, iv: Block)
    requires v.algs.crypt in {CRYPT_NONE, AES_CBC_128}
    requires v.algs.crypt == AES_CBC_128 ==> v.k2.Some? && |v.k2.value| >= 16
    requires w.algs == v.algs && w.k2 == v.k2
    ensures EncryptPayload(c, v, raw, iv).0 == v && EncryptPayload(c, v, raw, iv).1.Ok?
    ensures |EncryptPayload(c, v, raw, iv).1.value| == SessionPayloadSize(v.algs.crypt, |raw|)
    ensures DecryptPayload(c, w, EncryptPayload(c, v, raw, iv).1.value).1 == Ok(raw)
  {
    if v.algs.crypt == AES_CBC_128 {
      var key: Block, plain := v.k2.value[..16], AesPadded(raw);
      var data := iv + CbcEncrypt(c, key, iv, plain);
      assert data[..16] == iv && data[16..] == CbcEncrypt(c, key, iv, plain);
      CbcRoundTrip(c, key, iv, plain);
      var p := AesPadLength(|raw|) as nat;
      assert plain[|plain| - 1] == p && |plain| - p - 1 == |raw|;
      assert plain[..|raw|] == raw;
    }
  }

  /** Where the pad length byte of a received payload comes from: the last block
      and the byte in front of it. */
  function ReceivedPadLength(c: Suite, key: Block, data: bytes): byte
    requires |data| >= 17
  {
    Xor(c.aesDecrypt(key, data[|data| - 16..])[15], data[|data| - 17])
  }

  /** A received payload makes the client panic if and only if: with AES, it is
      not at least two whole blocks, or there is no K2 of 16 bytes yet, or the
      pad length it decrypts to reaches beyond it; with xRC4, it is shorter than
      20 bytes. */
  lemma DecryptPanicsExactly(c: Suite, v: V20, data: bytes)
    ensures DecryptPayload(c, v, data).1 == Panic <==>
      || (v.algs.crypt == AES_CBC_128 &&
            (|data| < 32 || |data| % 16 != 0 || v.k2.None? || |v.k2.value| < 16
             || ReceivedPadLength(c, v.k2.value[..16], data) as int + 17 > |data|))
      || (v.algs.crypt in {XRC4_40, XRC4_128} && |data| < 20)
  {
    hide CbcDecrypt;
    if v.algs.crypt == AES_CBC_128 && |data| >= 32 && |data| % 16 == 0 && v.k2.Some? && |v.k2.value| >= 16 {
      var iv: Block, cipher := data[..16], data[16..];
      CbcLastByte(c, v.k2.value[..16], iv, cipher);
      assert iv + cipher == data;
    }
  }

  /** In particular, once a new session has been granted AES and before it has
      keys, every encrypted payload does. */
  lemma EncryptedAnswerBeforeKeysPanics(e: Env, l: Link, data: bytes)
    requires l.v20.k2.None?
    ensures var (l1, accepted) := OpenSession(e, l);
      && (accepted && l1.v20.algs.crypt == AES_CBC_128 ==> DecryptPayload(e.crypto, l1.v20, data).1 == Panic)
      && (Rakp1(e, l1).0.v20.algs.crypt == AES_CBC_128 ==>
            DecryptPayload(e.crypto, Rakp1(e, l1).0.v20, data).1 == Panic)
  {
    hide CbcDecrypt, AuthHmac;
    var l1 := OpenSession(e, l).0;
    DecryptPanicsExactly(e.crypto, l1.v20, data);
    DecryptPanicsExactly(e.crypto, Rakp1(e, l1).0.v20, data);
  }

  /** With xRC4 a receiver with the same key reads the payload if and only if the
      sender's accumulated payload size is 0: other packets carry a 4-byte
      header, and decryption always drops 20 bytes. */
  lemma Rc4ReadsAtSizeZeroOnly(c: Suite, v: V20, w: V20, raw: bytes, iv: Block)
    requires v.algs.crypt in {XRC4_40, XRC4_128}
    requires w.algs == v.algs && w.k2 == v.k2
    ensures EncryptPayload(c, v, raw, iv).1.Ok?
    ensures DecryptPayload(c, w, EncryptPayload(c, v, raw, iv).1.value).1 == Ok(raw) <==> v.accumulatedPayloadSize == 0
  {
    hide BE32;
    BE32IsZero(v.accumulatedPayloadSize);
    var data := EncryptPayload(c, v, raw, iv).1.value;
    assert data[..4] == BE32(v.accumulatedPayloadSize);
    if v.accumulatedPayloadSize == 0 {
      assert data[4..20] == iv && data[20..] == c.rc4(Rc4Key(v, iv), raw);
    }
  }

  lemma BE32IsZero(n: uint32)
    ensures BE32(n) == Fill(0, 4) <==> n == 0
  {
    var b := BE32(n);
    assert b[0] as int * 0x100_0000 + b[1] as int * 0x1_0000 + b[2] as int * 0x100 + b[3] as int == n;
    assert b == Fill(0, 4) <==> b[0] == b[1] == b[2] == b[3] == 0;
  }

  /** The session payload of a packet, before the length field is filled in. */
  function SessionPayloadSize(crypt: byte, rawLength: nat): nat
  {
    if crypt == AES_CBC_128 then rawLength / 16 * 16 + 32 else rawLength
  }

  /** The trailer pads the packet to a multiple of four bytes and its code is
      the integrity code, under the session's K1, of every packed byte in front of it. */
  ghost predicate TrailerFits(e: Env, v: V20, s: Session20)
    requires s.trailer.Some?
  {
    var t, head := s.trailer.value, PackHeader20(s.header);
    && |t.pad| == TrailerPadLength(|head|, |s.payload|) == t.padLength as nat
    && t.nextHeader == NEXT_HEADER
    && |t.authCode| == IntegrityLength(v.algs.integrity)
    && IntegrityCode(e, v, Covered(head, s.payload)) == Ok(t.authCode)
    && PackSession20(s) == Covered(head, s.payload) + t.authCode
  }

  /** It is judged by the keys and algorithms only: w may differ from v elsewhere. */
  lemma TrailerIsFit(e: Env, v: V20, w: V20, h: Header20, payload: bytes)
    requires w.algs == v.algs && w.k1 == v.k1
    ensures var r := GenTrailer(e, v, PackHeader20(h), payload);
      r.Ok? ==> TrailerFits(e, w, Session20(h, payload, Some(r.value)))
  {
    hide PackHeader20;
    var r := GenTrailer(e, v, PackHeader20(h), payload);
    if r.Ok? {
      SameCode(e, v, w, Covered(PackHeader20(h), payload));
      TrailerBehindCovered(PackHeader20(h), payload, r.value.authCode);
    }
  }

  lemma SameCode(e: Env, v: V20, w: V20, input: bytes)
    requires w.algs == v.algs && w.k1 == v.k1
    ensures IntegrityCode(e, v, input) == IntegrityCode(e, w, input)
  {}

  lemma TrailerBehindCovered(header: bytes, payload: bytes, code: bytes)
    ensures var p := TrailerPadLength(|header|, |payload|);
      header + payload + PackTrailer(Trailer(Fill(0xff, p), p, NEXT_HEADER, code)) == Covered(header, payload) + code
  {}

  lemma TrailerIsMade(e: Env, v: V20, header: bytes, payload: bytes)
    requires KeysUsable(v) && v.state == Active
    ensures GenTrailer(e, v, header, payload).Ok?
  {}

  /** An Active session with usable keys and AES or no encryption always gets a
      packet: marked encrypted and authenticated, with the managed system's
      session id, the next sequence number, a payload that decrypts to the raw
      one, and a trailer unless the session id is 0. */
  lemma ActivePacket(e: Env, v: V20, payloadType: PayloadType, raw: bytes, iv: Block)
    requires v.state == Active && KeysUsable(v) && v.algs.crypt in {CRYPT_NONE, AES_CBC_128}
    ensures var (v', r) := GenSession20(e, v, payloadType, raw, iv);
      && v' == v.(sequence := (v.sequence + 1) % 0x1_0000_0000)
      && r.Ok?
      && IsPacketFor(e, v, payloadType, raw, r.value)
      && r.value.header.sequence == v'.sequence
  {
    hide EncryptPayload, DecryptPayload, GenTrailer, TrailerFits;
    var v1 := v.(sequence := (v.sequence + 1) % 0x1_0000_0000);
    DecryptUndoesEncrypt(e.crypto, v1, v, raw, iv);
    var payload := EncryptPayload(e.crypto, v1, raw, iv).1.value;
    var h := Header20(AUTH_TYPE_RMCP_PLUS, true, true, payloadType, 0, 0, v.bmcSessionID, v1.sequence,
                      |payload| % 0x1_0000);
    TrailerIsFit(e, v1, v, h, payload);
    TrailerIsMade(e, v1, PackHeader20(h), payload);
  }

  lemma PacketKeepsKeys(e: Env, v: V20, payloadType: PayloadType, raw: bytes, iv: Block)
    ensures var w := GenSession20(e, v, payloadType, raw, iv).0;
      && w.state == v.state && w.algs == v.algs && w.sik == v.sik && w.k1 == v.k1 && w.k2 == v.k2
      && (KeysUsable(v) ==> KeysUsable(w))
  {
    hide Finish20;
  }

  ghost predicate IsPacketFor(e: Env, v: V20, payloadType: PayloadType, raw: bytes, s: Session20)
  {
    var h := s.header;
    && h.authType == AUTH_TYPE_RMCP_PLUS && h.payloadType == payloadType && h.encrypted && h.authenticated
    && h.sessionID == v.bmcSessionID
    && |s.payload| == SessionPayloadSize(v.algs.crypt, |raw|)
    && h.payloadLength == |s.payload| % 0x1_0000
    && Sendable(h)
    && DecryptPayload(e.crypto, v, s.payload).1 == Ok(raw)
    && (s.trailer.Some? <==> v.bmcSessionID != 0)
    && (s.trailer.Some? ==> TrailerFits(e, v, s))
  }

  /** The largest raw payload whose packet length fits the 16-bit length field. */
  predicate Fits(crypt: byte, raw: bytes)
  {
    if crypt == AES_CBC_128 then |raw| <= 65503 else |raw| <= 65535
  }

  lemma FitsIsPayloadSize(crypt: byte, raw: bytes)
    requires crypt in {CRYPT_NONE, AES_CBC_128}
    ensures Fits(crypt, raw) <==> SessionPayloadSize(crypt, |raw|) < 0x1_0000
  {}

  /** The code of a packet covers exactly the sent bytes from AuthType/Format
      up to the AuthCode field, and the receiver finds it right. */
  lemma CodeCovers(e: Env, v: V20, s: Session20)
    requires s.trailer.Some? && TrailerFits(e, v, s)
    ensures var d, code := PackIpmi20(s), s.trailer.value.authCode;
      && 4 + |code| <= |d| && d[4..|d| - |code|] == Covered(PackHeader20(s.header), s.payload)
      && CodeMatches(e, v, d, s)
  {
    var d, code, covered := PackIpmi20(s), s.trailer.value.authCode, Covered(PackHeader20(s.header), s.payload);
    assert d == PackRmcpHeader(IPMI_HEADER) + (covered + code);
    assert d[4..|d| - |code|] == covered;
  }

  /** A packet whose length fits comes off the wire whole. */
  lemma PacketSurvives(e: Env, v: V20, payloadType: PayloadType, raw: bytes, s: Session20)
    requires IsPacketFor(e, v, payloadType, raw, s) && |s.payload| < 0x1_0000
    ensures UnpackRmcp(PackIpmi20(s)) == Some(Rmcp(IPMI_HEADER, Body20(s)))
  {
    assert IntegrityLength(v.algs.integrity) <= 16;
    SessionRoundTrip(s);
    Rmcp20RoundTrip(s);
  }

  /** End to end: a managed system with the same keys and algorithms accepts the
      packet and reads exactly the raw payload, if and only if the packet length
      fits the 16-bit length field. */
  lemma EndToEnd(e: Env, v: V20, payloadType: PayloadType, raw: bytes, iv: Block)
    requires v.state == Active && KeysUsable(v) && v.algs.crypt in {CRYPT_NONE, AES_CBC_128}
    ensures var r := GenSession20(e, v, payloadType, raw, iv).1;
      r.Ok? && (PeerReceive(e, v, PackIpmi20(r.value)) == Some(raw) <==> Fits(v.algs.crypt, raw))
  {
    ActivePacket(e, v, payloadType, raw, iv);
    FitsIsPayloadSize(v.algs.crypt, raw);
    var s := GenSession20(e, v, payloadType, raw, iv).1.value;
    if Fits(v.algs.crypt, raw) {
      PacketSurvives(e, v, payloadType, raw, s);
      if HasTrailer(s.header) {
        CodeCovers(e, v, s);
      }
    } else {
      LongPacketIsCut(e, v, payloadType, raw, s);
    }
  }

  /** A packet whose length wraps is cut short by the receiver. */
  lemma LongPacketIsCut(e: Env, v: V20, payloadType: PayloadType, raw: bytes, s: Session20)
    requires v.algs.crypt in {CRYPT_NONE, AES_CBC_128}
    requires IsPacketFor(e, v, payloadType, raw, s) && |s.payload| >= 0x1_0000
    ensures PeerReceive(e, v, PackIpmi20(s)) != Some(raw)
  {
    hide UnpackRmcp, PackIpmi20, DecryptPayload, CodeMatches, HasTrailer;
    CutPayload(s);
    var r := UnpackRmcp(PackIpmi20(s));
    if r.Some? {
      DecryptedIsShorter(e.crypto, v, r.value.body.s20.payload);
    }
  }

  lemma CutPayload(s: Session20)
    requires s.header.authType == AUTH_TYPE_RMCP_PLUS && Sendable(s.header)
    ensures var r := UnpackRmcp(PackIpmi20(s));
      r.Some? ==> r.value.body.Body20? && r.value.body.s20.header == s.header
                  && |r.value.body.s20.payload| == s.header.payloadLength
  {
    var rest := s.payload + (if s.trailer.Some? then PackTrailer(s.trailer.value) else []);
    assert PackSession20(s) == PackHeader20(s.header) + rest;
    HeaderRoundTrip(s.header, rest);
    Rmcp20RoundTrip(s);
  }

  lemma DecryptedIsShorter(c: Suite, v: V20, data: bytes)
    requires v.algs.crypt in {CRYPT_NONE, AES_CBC_128}
    ensures var r := DecryptPayload(c, v, data).1;
      r.Ok? ==> |r.value| <= |data| && (v.algs.crypt == AES_CBC_128 ==> |r.value| + 17 <= |data|)
  {}

  /** Outside a session nothing is encrypted or authenticated and the sequence
      number and session id are 0; the payload still arrives. */
  lemma SetupPacket(e: Env, v: V20, payloadType: PayloadType, raw: bytes, iv: Block)
    requires v.state != Active && |raw| < 0x1_0000
    ensures var (v', r) := GenSession20(e, v, payloadType, raw, iv);
      && v' == v && r.Ok?
      && r.value.header.sequence == 0 && r.value.header.sessionID == 0
      && PeerReceive(e, v, PackIpmi20(r.value)) == Some(raw)
  {
    var s := GenSession20(e, v, payloadType, raw, iv).1.value;
    SessionRoundTrip(s);
    Rmcp20RoundTrip(s);
  }
}
