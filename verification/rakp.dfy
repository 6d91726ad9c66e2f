/** The messages and formulas of the RMCP+ session establishment, as sections
    13.17 to 13.24 and 13.31 to 13.32 of IPMI v2.0 give them. Both the client
    and the managed system are written against these definitions. */
module Rakp {
  import opened Bytes
  import opened Crypto

  const NO_ERRORS: byte := 0x00
  const INVALID_SESSION_ID: byte := 0x02
  const INVALID_CHECK_VALUE: byte := 0x0f

  const OPEN_SESSION_REQUEST: byte := 0x10
  const RAKP_MESSAGE_1: byte := 0x12
  const RAKP_MESSAGE_3: byte := 0x14

  /** A session setup payload on its way to the managed system. */
  datatype Sent = Sent(payloadType: byte, payload: bytes)

  /** What comes back from one exchange: nothing usable, a packet whose payload
      type the client ignores (so that the response keeps its zero values), or
      a payload to unpack. */
  datatype Received = NoReply | Ignored | Payload(data: bytes)

  datatype Algorithms = Algorithms(auth: byte, integrity: byte, crypt: byte)

  // ----- requests on the wire -----

  function AlgorithmPayload(payloadType: byte, alg: byte): (b: bytes)
    ensures |b| == 8
  {
    [payloadType, 0, 0, 8, alg, 0, 0, 0]
  }

  function OpenSessionRequest(consoleSessionID: uint32, a: Algorithms): (b: bytes)
    ensures |b| == 32
  {
    [0, 0, 0, 0] + LE32(consoleSessionID)
    + AlgorithmPayload(0x00, a.auth) + AlgorithmPayload(0x01, a.integrity) + AlgorithmPayload(0x02, a.crypt)
  }

  function Rakp1Message(bmcSessionID: uint32, consoleRand: Block, role: byte, username: bytes): (b: bytes)
    ensures |b| == 28 + |username|
  {
    [0, 0, 0, 0] + LE32(bmcSessionID) + consoleRand + [role, 0, 0, |username| % 0x100] + username
  }

  function Rakp3Message(status: byte, bmcSessionID: uint32, code: bytes): (b: bytes)
    ensures |b| == 8 + |code|
  {
    [0, status, 0, 0] + LE32(bmcSessionID) + code
  }

  // ----- responses off the wire -----

  datatype OpenResponse = OpenResponse(status: byte, consoleSessionID: uint32, bmcSessionID: uint32, algs: Algorithms)

  datatype Rakp2Response = Rakp2Response(status: byte, consoleSessionID: uint32, bmcRand: Block, bmcGUID: Block,
                                         code: Option<bytes>)

  datatype Rakp4Response = Rakp4Response(status: byte, consoleSessionID: uint32, checkValue: Option<bytes>)

  const ZERO_BLOCK: Block := Fill(0, 16)

  function ParseOpenResponse(data: bytes): Option<OpenResponse>
  {
    if |data| < 8 then None
    else if data[1] != NO_ERRORS then Some(OpenResponse(data[1], U32At(data, 4), 0, Algorithms(0, 0, 0)))
    else if |data| < 36 then None
    else Some(OpenResponse(NO_ERRORS, U32At(data, 4), U32At(data, 8), Algorithms(data[16], data[24], data[32])))
  }

  /** A RAKP Message 2 whose status reports an error does not unpack. */
  function ParseRakp2(data: bytes, authAlg: byte): Option<Rakp2Response>
  {
    var n := AuthCodeLength(authAlg);
    if |data| < 8 || data[1] != NO_ERRORS || |data| < 40 + n then None
    else Some(Rakp2Response(NO_ERRORS, U32At(data, 4), data[8..24], data[24..40], Some(data[40..40 + n])))
  }

  function ParseRakp4(data: bytes, authAlg: byte): Option<Rakp4Response>
  {
    var n := CheckValueLength(authAlg);
    if |data| < 8 + n then None
    else Some(Rakp4Response(data[1], U32At(data, 4), Some(data[8..8 + n])))
  }

  function OpenReply(r: Received): Option<OpenResponse>
  {
    match r
    case NoReply => None
    case Ignored => Some(OpenResponse(0, 0, 0, Algorithms(0, 0, 0)))
    case Payload(data) => ParseOpenResponse(data)
  }

  function Rakp2Reply(r: Received, authAlg: byte): Option<Rakp2Response>
  {
    match r
    case NoReply => None
    case Ignored => Some(Rakp2Response(0, 0, ZERO_BLOCK, ZERO_BLOCK, None))
    case Payload(data) => ParseRakp2(data, authAlg)
  }

  function Rakp4Reply(r: Received, authAlg: byte): Option<Rakp4Response>
  {
    match r
    case NoReply => None
    case Ignored => Some(Rakp4Response(0, 0, None))
    case Payload(data) => ParseRakp4(data, authAlg)
  }

  // ----- key exchange (sections 13.31 and 13.32) -----

  /** The 160-bit user key. */
  function Kuid(password: bytes): (k: bytes)
    ensures |k| == 20
  {
    Padded(password, 20, 0)
  }

  /** The one-key login uses Kuid where the two-key login uses Kg. */
  function SikKey(kg: bytes, kuid: bytes): bytes
  {
    if kg != [] then kg else kuid
  }

  function NameField(username: bytes): bytes
  {
    [|username| % 0x100] + username
  }

  function Rakp2Data(sidM: uint32, sidC: uint32, randM: Block, randC: Block, guid: Block, role: byte, name: bytes): bytes
  {
    LE32(sidM) + LE32(sidC) + randM + randC + guid + [role] + NameField(name)
  }

  function Rakp3Data(randC: Block, sidM: uint32, role: byte, name: bytes): bytes
  {
    randC + LE32(sidM) + [role] + NameField(name)
  }

  function Rakp4Data(randM: Block, sidC: uint32, guid: Block): bytes
  {
    randM + LE32(sidC) + guid
  }

  function SikData(randM: Block, randC: Block, role: byte, name: bytes): bytes
  {
    randM + randC + [role] + NameField(name)
  }

  const CONST_1: bytes := Fill(0x01, 20)
  const CONST_2: bytes := Fill(0x02, 20)

  datatype Keys = Keys(sik: bytes, k1: bytes, k2: bytes)

  function DeriveKeys(c: Suite, authAlg: byte, data: bytes, key: bytes): (r: Option<Keys>)
    ensures r.Some? <==> authAlg in {RAKP_HMAC_SHA1, RAKP_HMAC_MD5, RAKP_HMAC_SHA256}
    ensures r.Some? ==> |r.value.sik| == |r.value.k1| == |r.value.k2| == AuthCodeLength(authAlg) >= 16
  {
    match AuthHmac(c, authAlg, data, key)
    case None => None
    case Some(sik) =>
      Some(Keys(sik, AuthHmac(c, authAlg, CONST_1, sik).value, AuthHmac(c, authAlg, CONST_2, sik).value))
  }

  // ----- the same by offset (tables of sections 13.31 and 13.32) -----

  ghost predicate IsRakp2Input(d: bytes, sidM: uint32, sidC: uint32, randM: bytes, randC: bytes, guid: bytes,
                               role: byte, name: bytes)
  {
    && |d| == 58 + |name|
    && U32At(d, 0) == sidM && U32At(d, 4) == sidC
    && d[8..24] == randM && d[24..40] == randC && d[40..56] == guid
    && d[56] == role && d[57] == |name| % 0x100 && d[58..] == name
  }

  ghost predicate IsRakp3Input(d: bytes, randC: bytes, sidM: uint32, role: byte, name: bytes)
  {
    && |d| == 22 + |name|
    && d[..16] == randC && U32At(d, 16) == sidM
    && d[20] == role && d[21] == |name| % 0x100 && d[22..] == name
  }

  ghost predicate IsRakp4Input(d: bytes, randM: bytes, sidC: uint32, guid: bytes)
  {
    && |d| == 36
    && d[..16] == randM && U32At(d, 16) == sidC && d[20..] == guid
  }

  ghost predicate IsSikInput(d: bytes, randM: bytes, randC: bytes, role: byte, name: bytes)
  {
    && |d| == 34 + |name|
    && d[..16] == randM && d[16..32] == randC
    && d[32] == role && d[33] == |name| % 0x100 && d[34..] == name
  }

  lemma Rakp2Layout(sidM: uint32, sidC: uint32, randM: Block, randC: Block, guid: Block, role: byte, name: bytes)
    ensures IsRakp2Input(Rakp2Data(sidM, sidC, randM, randC, guid, role, name), sidM, sidC, randM, randC, guid, role, name)
  {
    hide LE32, U32At;
    var d := Rakp2Data(sidM, sidC, randM, randC, guid, role, name);
    assert d[0..4] == LE32(sidM) && d[4..8] == LE32(sidC);
    LE32RoundTrip(sidM, d, 0);
    LE32RoundTrip(sidC, d, 4);
    assert d[8..24] == randM && d[24..40] == randC && d[40..56] == guid && d[58..] == name;
  }

  lemma Rakp3Layout(randC: Block, sidM: uint32, role: byte, name: bytes)
    ensures IsRakp3Input(Rakp3Data(randC, sidM, role, name), randC, sidM, role, name)
  {
    hide LE32, U32At;
    var d := Rakp3Data(randC, sidM, role, name);
    assert d[16..20] == LE32(sidM);
    LE32RoundTrip(sidM, d, 16);
    assert d[..16] == randC && d[22..] == name;
  }

  lemma Rakp4Layout(randM: Block, sidC: uint32, guid: Block)
    ensures IsRakp4Input(Rakp4Data(randM, sidC, guid), randM, sidC, guid)
  {
    hide LE32, U32At;
    var d := Rakp4Data(randM, sidC, guid);
    assert d[16..20] == LE32(sidC);
    LE32RoundTrip(sidC, d, 16);
    assert d[..16] == randM && d[20..] == guid;
  }

  /** Session integrity key input: the console's number first, then the managed
      system's, the role, and the name behind its length. */
  lemma SikLayout(randM: Block, randC: Block, role: byte, name: bytes)
    ensures IsSikInput(SikData(randM, randC, role, name), randM, randC, role, name)
  {
    var d := SikData(randM, randC, role, name);
    assert d[..16] == randM && d[16..32] == randC && d[34..] == name;
  }

  /** The user key is the password, zero bytes behind it up to 20. */
  ghost predicate IsUserKey(key: bytes, password: bytes)
  {
    IsPadded(key, password, 20, 0)
  }

  lemma KuidLayout(password: bytes)
    ensures IsUserKey(Kuid(password), password)
  {
    PaddedLayout(password, 20, 0);
  }

  /** The keys of section 13.31 and 13.32 over the primitives: SIK under Kg, or
      under the user key where there is none, over the numbers, role and name;
      K1 and K2 under SIK over twenty bytes 01h and 02h. */
  ghost predicate AreKeysOver(c: Suite, authAlg: byte, kg: bytes, kuid: bytes, randM: bytes, randC: bytes, role: byte,
                              name: bytes, keys: Keys)
  {
    && (exists d :: IsSikInput(d, randM, randC, role, name)
                    && IsAuthCode(c, authAlg, d, if |kg| > 0 then kg else kuid, keys.sik))
    && IsAuthCode(c, authAlg, seq(20, _ => 0x01), keys.sik, keys.k1)
    && IsAuthCode(c, authAlg, seq(20, _ => 0x02), keys.sik, keys.k2)
  }

  lemma DerivedKeys(c: Suite, authAlg: byte, kg: bytes, kuid: bytes, randM: Block, randC: Block, role: byte, name: bytes)
    ensures var keys := DeriveKeys(c, authAlg, SikData(randM, randC, role, name), SikKey(kg, kuid));
      keys.Some? ==> AreKeysOver(c, authAlg, kg, kuid, randM, randC, role, name, keys.value)
  {
    hide SikData, AuthHmac, IsSikInput, IsAuthCode;
    var d, key := SikData(randM, randC, role, name), SikKey(kg, kuid);
    var keys := DeriveKeys(c, authAlg, d, key);
    SikLayout(randM, randC, role, name);
    if keys.Some? {
      var sik := keys.value.sik;
      AuthHmacIsCode(c, authAlg, d, key, sik);
      AuthHmacIsCode(c, authAlg, CONST_1, sik, keys.value.k1);
      AuthHmacIsCode(c, authAlg, CONST_2, sik, keys.value.k2);
      assert CONST_1 == seq(20, _ => 0x01) && CONST_2 == seq(20, _ => 0x02);
    }
  }

  // ----- a managed system that follows the specification -----

  /** Its keys and identity, and how it picks session ids and random numbers
      from everything it has received so far. */
  datatype Bmc = Bmc(kuid: bytes, kg: bytes, guid: Block, sessionID: seq<Sent> -> uint32, random: seq<Sent> -> Block)

  /** It accepts the proposed algorithms and echoes them (section 13.18). */
  function OpenAnswer(b: Bmc, h: seq<Sent>, o: bytes): bytes
    requires |o| == 32
  {
    [o[0], NO_ERRORS, o[1], 0] + o[4..8] + LE32(b.sessionID(h)) + o[8..32]
  }

  function RakpName(r1: bytes): bytes
    requires |r1| >= 28
  {
    Most(r1, 28, r1[27])
  }

  function Rakp2Answer(c: Suite, b: Bmc, h: seq<Sent>, o: bytes, r1: bytes): bytes
    requires |o| == 32 && |r1| >= 28
  {
    var sid, randC := b.sessionID(h), b.random(h);
    if U32At(r1, 4) != sid then [r1[0], INVALID_SESSION_ID, 0, 0] + o[4..8]
    else
      var data := Rakp2Data(U32At(o, 4), sid, r1[8..24], randC, b.guid, r1[24], RakpName(r1));
      var code := AuthHmac(c, o[12], data, b.kuid);
      [r1[0], NO_ERRORS, 0, 0] + o[4..8] + randC + b.guid + (if code.Some? then code.value else [])
  }

  function BmcKeys(c: Suite, b: Bmc, h: seq<Sent>, o: bytes, r1: bytes): Option<Keys>
    requires |o| == 32 && |r1| >= 28
  {
    DeriveKeys(c, o[12], SikData(r1[8..24], b.random(h), r1[24], RakpName(r1)), SikKey(b.kg, b.kuid))
  }

  /** The check value depends on the authentication algorithm alone. */
  function Rakp4Answer(c: Suite, b: Bmc, h: seq<Sent>, o: bytes, r1: bytes, r3: bytes): bytes
    requires |o| == 32 && |r1| >= 28 && |r3| >= 8
  {
    var sid, auth := b.sessionID(h), o[12];
    var expected := AuthHmac(c, auth, Rakp3Data(b.random(h), U32At(o, 4), r1[24], RakpName(r1)), b.kuid);
    if r3[1] == NO_ERRORS && U32At(r3, 4) == sid && Some(r3[8..]) == expected then
      var keys := BmcKeys(c, b, h, o, r1).value;
      var mac := AuthHmac(c, auth, Rakp4Data(r1[8..24], sid, b.guid), keys.sik).value;
      [r3[0], NO_ERRORS, 0, 0] + o[4..8] + mac[..CheckValueLength(auth)]
    else [r3[0], INVALID_CHECK_VALUE, 0, 0] + o[4..8]
  }
}
