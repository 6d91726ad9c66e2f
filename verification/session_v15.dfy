/** IPMI v1.5 sessions: the AuthCode of authenticated packets, the session
    fields the activation commands set, and the packets sent meanwhile
    (types_session.go, client_auth_code.go, cmd_activate_session.go,
    cmd_get_session_challenge.go, interface_lan.go). */
module SessionV15 {
  import Bits
  import opened Bytes
  import opened Crypto
  import opened Packets
  import Datagrams
  import Md2

  datatype V15 = V15(preSession: bool, active: bool, sessionID: uint32, inSeq: uint32, outSeq: uint32, challenge: Block)

  const NEW_V15: V15 := V15(false, false, 0, 0, 0, Fill(0, 16))

  // ----- AuthCode (section 22.17.1 of IPMI v2.0) -----

  function Key16(password: bytes): Block
  {
    Padded(password, 16, 0)
  }

  function MultiSessionInput(password: bytes, sessionID: uint32, data: bytes, sequence: uint32): (b: bytes)
    ensures |b| == 40 + |data|
  {
    Key16(password) + LE32(sessionID) + data + LE32(sequence) + Key16(password)
  }

  /** The input by offset: the padded password, the session id, the data, the
      sequence number and the padded password again. */
  ghost predicate IsMultiSessionInput(d: bytes, password: bytes, sessionID: uint32, data: bytes, sequence: uint32)
  {
    var n := |data|;
    && |d| == 40 + n
    && IsPadded(d[..16], password, 16, 0)
    && U32At(d, 16) == sessionID && d[20..20 + n] == data && U32At(d, 20 + n) == sequence
    && IsPadded(d[24 + n..], password, 16, 0)
  }

  lemma MultiSessionLayout(password: bytes, sessionID: uint32, data: bytes, sequence: uint32)
    ensures IsMultiSessionInput(MultiSessionInput(password, sessionID, data, sequence), password, sessionID, data, sequence)
  {
    hide LE32, U32At, IsPadded, Padded;
    var d, n, key := MultiSessionInput(password, sessionID, data, sequence), |data|, Key16(password);
    PaddedLayout(password, 16, 0);
    assert d[..16] == key && d[24 + n..] == key && d[20..20 + n] == data;
    assert d[16..20] == LE32(sessionID);
    LE32RoundTrip(sessionID, d, 16);
    assert d[20 + n..20 + n + 4] == LE32(sequence);
    LE32RoundTrip(sequence, d, 20 + n);
  }

  /** md2.New().Sum(input) is input followed by the digest of the empty message,
      and the code is its front. OEM and unknown types leave the code nil, and
      slicing it panics. */
  function AuthCode(c: Suite, authType: byte, password: bytes, input: bytes): Outcome<Block>
    requires |input| >= 16
  {
    if authType == AUTH_TYPE_PASSWORD then Ok(Key16(password))
    else if authType == AUTH_TYPE_MD2 then Ok((input + Md2.RfcDigest(Md2.PI_SUBST, []))[..16])
    else if authType == AUTH_TYPE_MD5 then Ok(c.md5(input))
    else Panic
  }

  /** Section 22.17.1: by the number of the authentication type, the MD2 or MD5
      digest of the input, or the padded password in clear. */
  ghost predicate IsSpecifiedCode(c: Suite, authType: byte, password: bytes, sessionID: uint32, data: bytes,
                                  sequence: uint32, code: bytes)
  {
    || (authType == 1 && exists d :: IsMultiSessionInput(d, password, sessionID, data, sequence)
                                     && code == Md2.RfcDigest(Md2.PI_SUBST, d))
    || (authType == 2 && exists d :: IsMultiSessionInput(d, password, sessionID, data, sequence) && code == c.md5(d))
    || (authType == 4 && IsPadded(code, password, 16, 0))
  }

  /** What the client sends: the specified code for password and MD5. For MD2 it
      is the padded password, the same for every session, payload and number. */
  ghost predicate IsSentCode(c: Suite, authType: byte, password: bytes, sessionID: uint32, data: bytes,
                             sequence: uint32, code: bytes)
  {
    if authType == 1 then IsPadded(code, password, 16, 0)
    else IsSpecifiedCode(c, authType, password, sessionID, data, sequence, code)
  }

  lemma AuthCodeAgainstSpecification(c: Suite, authType: byte, password: bytes, sessionID: uint32, data: bytes, sequence: uint32)
    ensures var r := AuthCode(c, authType, password, MultiSessionInput(password, sessionID, data, sequence));
      if authType in {1, 2, 4} then r.Ok? && IsSentCode(c, authType, password, sessionID, data, sequence, r.value)
      else r == Panic
  {
    hide Md2.RfcDigest, IsMultiSessionInput, IsPadded;
    var input := MultiSessionInput(password, sessionID, data, sequence);
    MultiSessionLayout(password, sessionID, data, sequence);
    PaddedLayout(password, 16, 0);
    assert (input + Md2.RfcDigest(Md2.PI_SUBST, []))[..16] == Key16(password);
    if authType == 1 {
      assert AuthCode(c, authType, password, input) == Ok(Key16(password));
    } else if authType == 2 {
      assert IsSpecifiedCode(c, authType, password, sessionID, data, sequence, c.md5(input));
    }
  }

  /** With MD2 any two packets of any two sessions under the same password carry
      the same code; two commands that differ in one byte, for example. */
  lemma Md2CodeSaysNothing(c: Suite, password: bytes, sessionID: uint32, data: bytes, sequence: uint32,
                           otherID: uint32, otherData: bytes, otherSequence: uint32)
    ensures AuthCode(c, AUTH_TYPE_MD2, password, MultiSessionInput(password, sessionID, data, sequence))
      == AuthCode(c, AUTH_TYPE_MD2, password, MultiSessionInput(password, otherID, otherData, otherSequence))
  {
    hide Md2.RfcDigest;
    AuthCodeAgainstSpecification(c, AUTH_TYPE_MD2, password, sessionID, data, sequence);
    AuthCodeAgainstSpecification(c, AUTH_TYPE_MD2, password, otherID, otherData, otherSequence);
    var a := AuthCode(c, AUTH_TYPE_MD2, password, MultiSessionInput(password, sessionID, data, sequence)).value;
    var b := AuthCode(c, AUTH_TYPE_MD2, password, MultiSessionInput(password, otherID, otherData, otherSequence)).value;
    assert |a| == |b| == 16 && forall i :: 0 <= i < 16 ==> a[i] == b[i];
    assert a == b;
  }

  lemma Md2CodeOfTwoCommands(c: Suite)
    ensures var password, on, off := [0x61, 0x62], [0x20, 0x00, 0xe0, 0x81, 0x04, 0x02, 0x01],
                                     [0x20, 0x00, 0xe0, 0x81, 0x04, 0x02, 0x00];
      && on != off
      && AuthCode(c, AUTH_TYPE_MD2, password, MultiSessionInput(password, 1, on, 7))
         == AuthCode(c, AUTH_TYPE_MD2, password, MultiSessionInput(password, 1, off, 8))
  {
    hide AuthCode, MultiSessionInput;
    var password, on, off := [0x61, 0x62], [0x20, 0x00, 0xe0, 0x81, 0x04, 0x02, 0x01],
                             [0x20, 0x00, 0xe0, 0x81, 0x04, 0x02, 0x00];
    assert on[6] != off[6];
    Md2CodeSaysNothing(c, password, 1, on, 7, 1, off, 8);
  }

  /** The type chosen from the second byte of a capabilities answer: the first
      supported one of MD2, MD5, password and OEM, or else none. */
  function ChosenAuthType(flags: byte): byte
  {
    if flags / 2 % 2 == 1 then AUTH_TYPE_MD2
    else if flags / 4 % 2 == 1 then AUTH_TYPE_MD5
    else if flags / 16 % 2 == 1 then AUTH_TYPE_PASSWORD
    else if flags / 32 % 2 == 1 then AUTH_TYPE_OEM
    else AUTH_TYPE_NONE
  }

  /** The client can compute a code for the chosen type unless OEM is the only
      supported one. */
  predicate OnlyOem(flags: byte)
  {
    flags / 32 % 2 == 1 && flags / 2 % 2 == 0 && flags / 4 % 2 == 0 && flags / 16 % 2 == 0
  }

  lemma ChosenTypeCanSend(flags: byte)
    ensures ChosenAuthType(flags) in {AUTH_TYPE_NONE, AUTH_TYPE_PASSWORD, AUTH_TYPE_MD2, AUTH_TYPE_MD5} <==> !OnlyOem(flags)
  {}

  /** Bits 1, 2, 4 and 5 stand for the types of the same numbers, and the lowest
      one that is set gives the type. */
  lemma ChosenIsLowestFlag(flags: byte)
    ensures var t := ChosenAuthType(flags);
      && t in {0, 1, 2, 4, 5} && (t != 0 ==> Bits.BitAt(flags, t) == 1)
      && forall u: nat :: u in {1, 2, 4, 5} && Bits.BitAt(flags, u) == 1 ==> 0 < t as int <= u
  {
    var h1, h3 := flags / 2, flags / 8;
    assert h1 / 2 == flags / 4 && flags / 4 / 2 == h3 && h3 / 2 == flags / 16 && flags / 16 / 2 == flags / 32;
    assert Bits.BitAt(flags, 1) == Bits.BitAt(h1, 0) == flags / 2 % 2;
    assert Bits.BitAt(flags, 2) == Bits.BitAt(h1, 1) == Bits.BitAt(flags / 4, 0) == flags / 4 % 2;
    assert Bits.BitAt(flags, 3) == Bits.BitAt(h1, 2) == Bits.BitAt(flags / 4, 1) == Bits.BitAt(h3, 0);
    assert Bits.BitAt(flags, 4) == Bits.BitAt(h1, 3) == Bits.BitAt(flags / 4, 2) == Bits.BitAt(h3, 1)
           == Bits.BitAt(flags / 16, 0) == flags / 16 % 2;
    assert Bits.BitAt(flags, 5) == Bits.BitAt(h1, 4) == Bits.BitAt(flags / 4, 3) == Bits.BitAt(h3, 2)
           == Bits.BitAt(flags / 16, 1) == Bits.BitAt(flags / 32, 0) == flags / 32 % 2;
  }

  // ----- one packet -----

  function GenSession15(c: Suite, password: bytes, authType: byte, v: V15, raw: bytes): (V15, Outcome<Session15>)
  {
    var inSession := v.preSession || v.active;
    var headerType := if inSession then authType else AUTH_TYPE_NONE;
    var v1 := if v.active then v.(inSeq := (v.inSeq + 1) % 0x1_0000_0000) else v;
    var code := if headerType == AUTH_TYPE_NONE then Ok([])
                else AuthCode(c, authType, password, MultiSessionInput(password, v1.sessionID, raw, v1.inSeq));
    match code
    case Err => (v1, Err)
    case Panic => (v1, Panic)
    case Ok(authCode) =>
      var header := Header15(headerType, if v.active then v1.inSeq else 0, if inSession then v.sessionID else 0,
                             authCode, |raw| % 0x100);
      (v1, Ok(Session15(header, raw)))
  }

  /** The header's code is the one the client sends for the header's own session
      id and sequence number; without authentication there is none. */
  ghost predicate Consistent(c: Suite, password: bytes, s: Session15)
  {
    var h := s.header;
    if h.authType == 0 then h.authCode == []
    else IsSentCode(c, h.authType, password, h.sessionID, s.payload, h.sequence, h.authCode)
  }

  /** Before activation the inbound sequence number is still 0. */
  predicate SequenceInvariant(v: V15)
  {
    !v.active ==> v.inSeq == 0
  }

  /** No packet can be made in a session with an OEM or unknown authentication
      type: slicing the code that was not computed panics. */
  predicate CanSend(r: Run)
  {
    !(r.v.preSession || r.v.active)
    || r.authType in {AUTH_TYPE_NONE, AUTH_TYPE_PASSWORD, AUTH_TYPE_MD2, AUTH_TYPE_MD5}
  }

  lemma SendableIffCode(c: Suite, password: bytes, r: Run, raw: bytes)
    ensures GenSession15(c, password, r.authType, r.v, raw).1.Ok? <==> CanSend(r)
  {
    hide Md2.RfcDigest, MultiSessionInput;
  }

  /** One packet: outside a session it has no authentication, id and number; in
      one, the chosen type and the session's id, and in an active one the next
      number. Its code is the one for the very id and number in the header. */
  lemma PacketIsConsistent(c: Suite, password: bytes, authType: byte, v: V15, raw: bytes)
    requires SequenceInvariant(v)
    ensures var (v', r) := GenSession15(c, password, authType, v, raw);
      && SequenceInvariant(v') && v' == v.(inSeq := v'.inSeq)
      && v'.inSeq == (if v.active then (v.inSeq + 1) % 0x1_0000_0000 else v.inSeq)
      && (r.Ok? ==>
        && var h, inSession := r.value.header, v.preSession || v.active;
        && r.value.payload == raw && h.payloadLength == |raw| % 0x100
        && h.authType == (if inSession then authType else 0)
        && h.sessionID == (if inSession then v.sessionID else 0)
        && h.sequence == (if v.active then v'.inSeq else 0)
        && h.authType in {0, 1, 2, 4}
        && Consistent(c, password, r.value))
  {
    hide Md2.RfcDigest, AuthCode, MultiSessionInput, IsSentCode;
    var inSeq := if v.active then (v.inSeq + 1) % 0x1_0000_0000 else v.inSeq;
    AuthCodeAgainstSpecification(c, authType, password, v.sessionID, raw, inSeq);
  }

  // ----- every run -----

  /** What changes a v1.5 session: the channel capabilities choose the
      authentication type, the challenge and activation answers fill the
      fields, Connect15 marks the pre-session, and commands are sent. */
  datatype Event =
    | ChooseAuthType(authType: byte)
    | ChallengeAnswered(temporarySessionID: uint32, challenge: Block)
    | EnterPreSession
    | ActivateSent(outSeq: uint32)
    | ActivateAnswered(sessionID: uint32, initialInSeq: uint32)
    | Send(raw: bytes)

  datatype Run = Run(authType: byte, v: V15, packets: seq<Session15>)

  function ChallengeFields(v: V15, temporarySessionID: uint32, challenge: Block): V15
  {
    v.(sessionID := temporarySessionID, challenge := challenge)
  }

  function ActivatedFields(v: V15, sessionID: uint32, initialInSeq: uint32): V15
  {
    v.(active := true, preSession := false, sessionID := sessionID, inSeq := initialInSeq)
  }

  function Step(c: Suite, password: bytes, r: Run, e: Event): Run
  {
    match e
    case ChooseAuthType(t) => r.(authType := t)
    case ChallengeAnswered(id, ch) => r.(v := ChallengeFields(r.v, id, ch))
    case EnterPreSession => r.(v := r.v.(preSession := true))
    case ActivateSent(outSeq) => r.(v := r.v.(outSeq := outSeq))
    case ActivateAnswered(id, seqNo) => r.(v := ActivatedFields(r.v, id, seqNo))
    case Send(raw) =>
      var (v, out) := GenSession15(c, password, r.authType, r.v, raw);
      Run(r.authType, v, if out.Ok? then r.packets + [out.value] else r.packets)
  }

  function Runs(c: Suite, password: bytes, events: seq<Event>): Run
  {
    if events == [] then Run(AUTH_TYPE_NONE, NEW_V15, [])
    else Step(c, password, Runs(c, password, events[..|events| - 1]), events[|events| - 1])
  }

  ghost predicate Sound(c: Suite, password: bytes, r: Run)
  {
    SequenceInvariant(r.v) && forall s <- r.packets :: Consistent(c, password, s)
  }

  lemma StepIsSound(c: Suite, password: bytes, r: Run, e: Event)
    requires Sound(c, password, r)
    ensures Sound(c, password, Step(c, password, r, e))
  {
    hide GenSession15, Consistent;
    if e.Send? {
      PacketIsConsistent(c, password, r.authType, r.v, e.raw);
    }
  }

  /** In every run from a new client, whatever the answers are, every packet's
      code covers the session id and sequence number in that packet's header. */
  lemma {:induction false} EveryPacketIsConsistent(c: Suite, password: bytes, events: seq<Event>)
    ensures Sound(c, password, Runs(c, password, events))
  {
    if events != [] {
      var before := events[..|events| - 1];
      EveryPacketIsConsistent(c, password, before);
      StepIsSound(c, password, Runs(c, password, before), events[|events| - 1]);
    }
  }

  // ----- on the wire -----

  /** A packet comes off the wire as it was sent exactly when its payload length
      fits the one-byte length field. */
  lemma Session15Survives(c: Suite, password: bytes, authType: byte, v: V15, raw: bytes)
    requires SequenceInvariant(v)
    ensures var r := GenSession15(c, password, authType, v, raw).1;
      r.Ok? ==> (UnpackRmcp(PackIpmi15(r.value)) == Some(Rmcp(IPMI_HEADER, Body15(r.value))) <==> |raw| < 0x100)
  {
    hide Md2.RfcDigest;
    PacketIsConsistent(c, password, authType, v, raw);
    var r := GenSession15(c, password, authType, v, raw).1;
    if r.Ok? {
      PacketOnWire(r.value);
    }
  }

  lemma PacketOnWire(s: Session15)
    requires if s.header.authType == AUTH_TYPE_NONE then s.header.authCode == [] else |s.header.authCode| == 16
    requires s.header.authType != AUTH_TYPE_RMCP_PLUS && s.header.payloadLength == |s.payload| % 0x100
    ensures UnpackRmcp(PackIpmi15(s)) == Some(Rmcp(IPMI_HEADER, Body15(s))) <==> |s.payload| < 0x100
  {
    var msg, p := PackIpmi15(s), PackSession15(s);
    assert msg[..4] == PackRmcpHeader(IPMI_HEADER) && msg[4..] == p;
    assert msg[4] == p[0];
    Header15RoundTrip(s.header, p);
    var start := |PackHeader15(s.header)|;
    if |s.payload| < 0x100 {
      assert p[start..start + |s.payload|] == s.payload;
    }
  }

  /** A datagram by offset (table 13-8): the authentication type, the sequence
      number, the session id, the code if there is a type, the payload's length
      and the payload. */
  ghost predicate HasHeader15(d: bytes, h: Header15, payload: bytes)
  {
    var at: nat := if h.authType == 0 then 13 else 29;
    && |d| == at + 1 + |payload|
    && d[4] == h.authType && U32At(d, 5) == h.sequence && U32At(d, 9) == h.sessionID
    && d[13..at] == h.authCode
    && d[at] == |payload| % 0x100 && d[at + 1..] == payload
  }

  /** Every packet that is made is framed and laid out like that. */
  lemma Datagram15(c: Suite, password: bytes, authType: byte, v: V15, raw: bytes)
    requires SequenceInvariant(v)
    ensures var r := GenSession15(c, password, authType, v, raw).1;
      r.Ok? ==> Datagrams.IsFramed(PackIpmi15(r.value)) && HasHeader15(PackIpmi15(r.value), r.value.header, raw)
  {
    hide GenSession15, PackHeader15, IsSentCode, HasHeader15;
    PacketIsConsistent(c, password, authType, v, raw);
    var r := GenSession15(c, password, authType, v, raw).1;
    if r.Ok? {
      CodeLength(c, password, r.value);
      Layout15(r.value);
    }
  }

  lemma CodeLength(c: Suite, password: bytes, s: Session15)
    requires Consistent(c, password, s) && s.header.authType in {0, 1, 2, 4}
    ensures |s.header.authCode| == if s.header.authType == 0 then 0 else 16
  {
    hide IsMultiSessionInput;
  }

  lemma Layout15(s: Session15)
    requires |s.header.authCode| == if s.header.authType == 0 then 0 else 16
    requires s.header.payloadLength == |s.payload| % 0x100
    ensures HasHeader15(PackIpmi15(s), s.header, s.payload)
  {
    hide LE32, U32At;
    var d, h := PackIpmi15(s), s.header;
    assert d == PackRmcpHeader(IPMI_HEADER) + [h.authType] + LE32(h.sequence) + LE32(h.sessionID) + h.authCode
                + [h.payloadLength] + s.payload;
    assert d[5..9] == LE32(h.sequence) && d[9..13] == LE32(h.sessionID);
    LE32RoundTrip(h.sequence, d, 5);
    LE32RoundTrip(h.sessionID, d, 9);
    assert d[13..13 + |h.authCode|] == h.authCode;
  }
}
