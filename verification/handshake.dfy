/** The client's side of the RMCP+ session establishment, as a function from one
    session state to the next, and what holds of every run of it. The class
    `Client.Client` updates its fields in place and is proved against it. */
module Handshake {
  import opened Bytes
  import opened Crypto
  import opened Rakp

  datatype State =
    | PreSession | OpenSessionSent | OpenSessionReceived | Rakp1Sent | Rakp2Received | Rakp3Sent | Active | CloseSent

  const CIPHER_SUITE_RESERVED: byte := 0xff
  const CONSOLE_SESSION_ID: uint32 := 0xa0a1_a2a3

  /** The v2.0 session fields of the client. */
  datatype V20 = V20(
    state: State,
    sequence: uint32,
    cipherSuiteID: byte,
    requested: Algorithms,
    algs: Algorithms,
    role: byte,
    consoleSessionID: uint32,
    bmcSessionID: uint32,
    consoleRand: Block,
    bmcRand: Block,
    bmcGUID: Block,
    sik: Option<bytes>,
    k1: Option<bytes>,
    k2: Option<bytes>,
    rakp2ReturnCode: byte,
    bmcKey: bytes,
    accumulatedPayloadSize: uint32,
    rc4EncryptIV: Block,
    rc4DecryptIV: Block)

  /** The session of a new client. */
  const NEW_SESSION: V20 :=
    V20(PreSession, 0, CIPHER_SUITE_RESERVED, Algorithms(0, 0, 0), Algorithms(0, 0, 0), 0, 0, 0,
        ZERO_BLOCK, ZERO_BLOCK, ZERO_BLOCK, None, None, None, 0, [], 0, ZERO_BLOCK, ZERO_BLOCK)

  /** What the client is configured with and runs against: `receive` gives the
      outcome of an exchange from everything sent so far, so it stands for any
      managed system and any network; `random` for any random numbers. */
  datatype Env = Env(crypto: Suite, username: bytes, password: bytes, maxPrivilege: byte,
                     receive: seq<Sent> -> Received, random: nat -> Block)

  /** The session together with every session setup payload sent so far. */
  datatype Link = Link(v20: V20, sent: seq<Sent>)

  function SuiteAlgorithms(id: byte): Algorithms
  {
    if id == 0 then Algorithms(RAKP_NONE, INTEGRITY_NONE, CRYPT_NONE)
    else if id == 1 then Algorithms(RAKP_HMAC_SHA1, INTEGRITY_NONE, CRYPT_NONE)
    else if id == 2 then Algorithms(RAKP_HMAC_SHA1, HMAC_SHA1_96, CRYPT_NONE)
    else if id == 3 then Algorithms(RAKP_HMAC_SHA1, HMAC_SHA1_96, AES_CBC_128)
    else if id == 4 then Algorithms(RAKP_HMAC_SHA1, HMAC_SHA1_96, XRC4_128)
    else if id == 5 then Algorithms(RAKP_HMAC_SHA1, HMAC_SHA1_96, XRC4_40)
    else if id == 6 then Algorithms(RAKP_HMAC_MD5, INTEGRITY_NONE, CRYPT_NONE)
    else if id == 7 then Algorithms(RAKP_HMAC_MD5, HMAC_MD5_128, CRYPT_NONE)
    else if id == 8 then Algorithms(RAKP_HMAC_MD5, HMAC_MD5_128, AES_CBC_128)
    else if id == 9 then Algorithms(RAKP_HMAC_MD5, HMAC_MD5_128, XRC4_128)
    else if id == 10 then Algorithms(RAKP_HMAC_MD5, HMAC_MD5_128, XRC4_40)
    else if id == 11 then Algorithms(RAKP_HMAC_MD5, MD5_128, CRYPT_NONE)
    else if id == 12 then Algorithms(RAKP_HMAC_MD5, MD5_128, AES_CBC_128)
    else if id == 13 then Algorithms(RAKP_HMAC_MD5, MD5_128, XRC4_128)
    else if id == 14 then Algorithms(RAKP_HMAC_MD5, MD5_128, XRC4_40)
    else if id == 15 then Algorithms(RAKP_HMAC_SHA256, INTEGRITY_NONE, CRYPT_NONE)
    else if id == 16 then Algorithms(RAKP_HMAC_SHA256, HMAC_SHA256_128, CRYPT_NONE)
    else if id == 17 then Algorithms(RAKP_HMAC_SHA256, HMAC_SHA256_128, AES_CBC_128)
    else if id == 18 then Algorithms(RAKP_HMAC_SHA256, HMAC_SHA256_128, XRC4_128)
    else if id == 19 then Algorithms(RAKP_HMAC_SHA256, HMAC_SHA256_128, XRC4_40)
    else Algorithms(0, 0, 0)
  }

  /** The privilege level with the name-only-lookup bit (bit 4) set. */
  function Role(privilege: byte): byte
  {
    if privilege / 16 % 2 == 1 then privilege else privilege + 16
  }

  // ----- the three exchanges -----

  function OpenSession(e: Env, l: Link): (Link, bool)
  {
    var algs := SuiteAlgorithms(l.v20.cipherSuiteID);
    var v := l.v20.(requested := algs, state := OpenSessionSent);
    var sent := l.sent + [Sent(OPEN_SESSION_REQUEST, OpenSessionRequest(CONSOLE_SESSION_ID, algs))];
    match OpenReply(e.receive(sent))
    case None => (Link(v, sent), false)
    case Some(res) =>
      if res.status != NO_ERRORS then (Link(v, sent), false)
      else
        (Link(v.(state := OpenSessionReceived, algs := res.algs,
                 consoleSessionID := res.consoleSessionID, bmcSessionID := res.bmcSessionID), sent), true)
  }

  function Rakp2Code(e: Env, v: V20): Option<bytes>
  {
    AuthHmac(e.crypto, v.algs.auth,
             Rakp2Data(v.consoleSessionID, v.bmcSessionID, v.consoleRand, v.bmcRand, v.bmcGUID, v.role, e.username),
             Kuid(e.password))
  }

  predicate ValidRakp2(e: Env, v: V20, res: Rakp2Response)
  {
    && v.consoleSessionID == res.consoleSessionID
    && Rakp2Code(e, v).Some?
    && res.code == Rakp2Code(e, v)
  }

  function Rakp1(e: Env, l: Link): (Link, bool)
  {
    var v := l.v20.(consoleRand := e.random(|l.sent|), role := Role(e.maxPrivilege), state := Rakp1Sent);
    var sent := l.sent + [Sent(RAKP_MESSAGE_1, Rakp1Message(v.bmcSessionID, v.consoleRand, v.role, e.username))];
    match Rakp2Reply(e.receive(sent), v.algs.auth)
    case None => (Link(v, sent), false)
    case Some(res) =>
      var w := v.(rakp2ReturnCode := res.status, bmcGUID := res.bmcGUID, bmcRand := res.bmcRand);
      if ValidRakp2(e, w, res) then (Link(w.(state := Rakp2Received), sent), true) else (Link(w, sent), false)
  }

  function ClientKeys(e: Env, v: V20): Option<Keys>
  {
    DeriveKeys(e.crypto, v.algs.auth, SikData(v.consoleRand, v.bmcRand, v.role, e.username),
               SikKey(v.bmcKey, Kuid(e.password)))
  }

  function Rakp3Code(e: Env, v: V20): Option<bytes>
  {
    AuthHmac(e.crypto, v.algs.auth, Rakp3Data(v.bmcRand, v.consoleSessionID, v.role, e.username), Kuid(e.password))
  }

  /** The check value the client expects; it goes by the integrity algorithm. */
  function Rakp4Code(e: Env, v: V20): Option<bytes>
    requires v.sik.Some?
  {
    var mac := IntegrityHmac(e.crypto, v.algs.integrity, Rakp4Data(v.consoleRand, v.bmcSessionID, v.bmcGUID), v.sik.value);
    if mac.None? then None else Some(mac.value[..IntegrityLength(v.algs.integrity)])
  }

  predicate ValidRakp4(e: Env, v: V20, res: Rakp4Response)
    requires v.sik.Some?
  {
    && res.status == NO_ERRORS
    && v.consoleSessionID == res.consoleSessionID
    && Rakp4Code(e, v).Some?
    && res.checkValue == Rakp4Code(e, v)
  }

  function Rakp3(e: Env, l: Link): (Link, bool)
  {
    match ClientKeys(e, l.v20)
    case None => (l, false)
    case Some(keys) =>
      var v := l.v20.(sik := Some(keys.sik), k1 := Some(keys.k1), k2 := Some(keys.k2), state := Rakp3Sent);
      var message := Rakp3Message(v.rakp2ReturnCode, v.bmcSessionID, Rakp3Code(e, v).value);
      var sent := l.sent + [Sent(RAKP_MESSAGE_3, message)];
      match Rakp4Reply(e.receive(sent), v.algs.auth)
      case None => (Link(v, sent), false)
      case Some(res) =>
        if ValidRakp4(e, v, res) then (Link(v.(state := Active), sent), true) else (Link(v, sent), false)
  }

  // ----- the loop over cipher suites -----

  function TrySuite(e: Env, l: Link, id: byte): (Link, bool)
  {
    var (l1, accepted) := OpenSession(e, l.(v20 := l.v20.(cipherSuiteID := id)));
    if !accepted then (l1, false)
    else
      var (l2, exchanged) := Rakp1(e, l1);
      if !exchanged then (l2, false) else Rakp3(e, l2)
  }

  function TrySuites(e: Env, l: Link, ids: seq<byte>): (Link, bool)
    decreases |ids|
  {
    if ids == [] then (l, false)
    else
      var (l1, success) := TrySuite(e, l, ids[0]);
      if success then (l1, true) else TrySuites(e, l1, ids[1..])
  }

  /** Connect20 tries the suite the user chose, or else those it discovered. */
  function Connect(e: Env, l: Link, discovered: seq<byte>): (Link, bool)
  {
    TrySuites(e, l, if l.v20.cipherSuiteID != CIPHER_SUITE_RESERVED then [l.v20.cipherSuiteID] else discovered)
  }

  // ----- safety -----

  /** What a session must have seen to be Active: the last three payloads sent
      are one attempt with the suite in the session, and the answers to them, as bytes on the wire, carry the
      codes that sections 13.31 and 13.32 prescribe for the numbers, ids, role
      and name in those very payloads. */
  ghost predicate Authenticated(e: Env, l: Link)
  {
    var n, v := |l.sent|, l.v20;
    && n >= 3
    && SentByAttempt(e, v, l.sent, n - 3, v.cipherSuiteID)
    && OpenAccepted(v, e.receive(l.sent[..n - 2]))
    && |l.sent[n - 2].payload| >= 28
    && Rakp2Accepted(e, v, l.sent[n - 2].payload, e.receive(l.sent[..n - 1]))
    && Rakp3Proves(e, v, l.sent[n - 2].payload, e.receive(l.sent[..n - 1]), l.sent[n - 1].payload)
    && Rakp4Accepted(e, v, l.sent[n - 2].payload, e.receive(l.sent[..n - 1]), e.receive(l.sent))
  }

  // ----- what an attempt sends -----

  /** The cipher suites 0 to 19 (section 22.15.2): the numbers of their authentication,
      integrity and confidentiality algorithms. */
  const SUITE_AUTH: seq<byte> := [0, 1, 1, 1, 1, 1, 2, 2, 2, 2, 2, 2, 2, 2, 2, 3, 3, 3, 3, 3]
  const SUITE_INTEGRITY: seq<byte> := [0, 0, 1, 1, 1, 1, 0, 2, 2, 2, 2, 3, 3, 3, 3, 0, 4, 4, 4, 4]
  const SUITE_CRYPT: seq<byte> := [0, 0, 0, 1, 2, 3, 0, 0, 1, 2, 3, 0, 1, 2, 3, 0, 0, 1, 2, 3]

  /** Other suites ask for no algorithms. */
  function InTable(column: seq<byte>, id: byte): byte
  {
    if id < |column| then column[id] else 0
  }

  /** The client asks for the algorithms of the table; in each group of suites with
      the same authentication and integrity algorithm, none, AES-CBC-128, xRC4-128
      and xRC4-40 follow each other. */
  lemma SuiteIsInTable(id: byte)
    ensures SuiteAlgorithms(id) == Algorithms(InTable(SUITE_AUTH, id), InTable(SUITE_INTEGRITY, id), InTable(SUITE_CRYPT, id))
    ensures 2 <= id <= 5 ==> SuiteAlgorithms(id).crypt == id - 2
    ensures 7 <= id <= 10 ==> SuiteAlgorithms(id).crypt == id - 7
    ensures 11 <= id <= 14 ==> SuiteAlgorithms(id).crypt == id - 11
    ensures 16 <= id <= 19 ==> SuiteAlgorithms(id).crypt == id - 16
  {}

  /** Section 13.17: the console's session id and three algorithm payloads of eight bytes. */
  ghost predicate IsOpenRequest(o: bytes, id: byte)
  {
    && |o| == 32
    && o[..4] == [0, 0, 0, 0]
    && o[4..8] == [0xa3, 0xa2, 0xa1, 0xa0]
    && o[8..16] == [0x00, 0, 0, 8, InTable(SUITE_AUTH, id), 0, 0, 0]
    && o[16..24] == [0x01, 0, 0, 8, InTable(SUITE_INTEGRITY, id), 0, 0, 0]
    && o[24..] == [0x02, 0, 0, 8, InTable(SUITE_CRYPT, id), 0, 0, 0]
  }

  lemma OpenRequestLayout(id: byte)
    ensures IsOpenRequest(OpenSessionRequest(CONSOLE_SESSION_ID, SuiteAlgorithms(id)), id)
  {
    hide SuiteAlgorithms, InTable;
    SuiteIsInTable(id);
    assert LE32(CONSOLE_SESSION_ID) == [0xa3, 0xa2, 0xa1, 0xa0];
  }

  /** Section 13.20: the managed system's session id, the console's number, the
      privilege level with bit 4 set, and the name behind its length. */
  ghost predicate IsRakp1Message(m: bytes, sidC: uint32, randM: bytes, privilege: byte, name: bytes)
  {
    && |m| == 28 + |name|
    && m[..4] == [0, 0, 0, 0] && U32At(m, 4) == sidC && m[8..24] == randM
    && m[24] % 16 == privilege % 16 && m[24] / 16 % 2 == 1 && m[24] / 32 == privilege / 32
    && m[25] == 0 && m[26] == 0 && m[27] == |name| % 0x100 && m[28..] == name
  }

  lemma Rakp1Layout(sidC: uint32, randM: Block, privilege: byte, name: bytes)
    ensures IsRakp1Message(Rakp1Message(sidC, randM, Role(privilege), name), sidC, randM, privilege, name)
  {
    hide LE32, U32At;
    var m := Rakp1Message(sidC, randM, Role(privilege), name);
    Rakp1Fields(sidC, randM, Role(privilege), name);
    assert m[..4] == [0, 0, 0, 0];
  }

  /** The payloads of an attempt from the n-th on: Open Session with the suite's
      algorithms, and RAKP Message 1, if it comes that far, with the id the managed
      system gave, a number drawn for it, the user's privilege level and name. */
  ghost predicate SentByAttempt(e: Env, v: V20, sent: seq<Sent>, n: nat, id: byte)
  {
    && |sent| > n && sent[n].payloadType == 0x10 && IsOpenRequest(sent[n].payload, id)
    && (|sent| > n + 1 ==>
          && sent[n + 1].payloadType == 0x12
          && IsRakp1Message(sent[n + 1].payload, v.bmcSessionID, e.random(n + 1), e.maxPrivilege, e.username))
    && (|sent| > n + 2 ==> |sent| == n + 3 && sent[n + 2].payloadType == 0x14)
  }

  lemma AttemptSends(e: Env, l: Link, id: byte)
    ensures var l' := TrySuite(e, l, id).0;
      l.sent <= l'.sent && SentByAttempt(e, l'.v20, l'.sent, |l.sent|, id)
  {
    hide SuiteAlgorithms, AuthHmac, IntegrityHmac, ValidRakp2, ValidRakp4, IsOpenRequest, IsRakp1Message;
    hide OpenSessionRequest, Rakp1Message, Role, LE32;
    OpenRequestLayout(id);
    var (l1, accepted) := OpenSession(e, l.(v20 := l.v20.(cipherSuiteID := id)));
    Rakp1Layout(l1.v20.bmcSessionID, e.random(|l1.sent|), e.maxPrivilege, e.username);
  }

  /** The Open Session Response reported no error and gave the ids and algorithms
      in use; a packet with an ignored payload type counts as one of zeros. */
  ghost predicate OpenAccepted(v: V20, answer: Received)
  {
    || (answer == Ignored && v.consoleSessionID == 0 && v.bmcSessionID == 0 && v.algs == Algorithms(0, 0, 0))
    || (answer.Payload?
        && var a := answer.data;
           && |a| >= 36 && a[1] == 0
           && U32At(a, 4) == v.consoleSessionID && U32At(a, 8) == v.bmcSessionID
           && a[16] == v.algs.auth && a[24] == v.algs.integrity && a[32] == v.algs.crypt)
  }

  /** The answer to RAKP Message 1 carries the code over the ids, the numbers, the
      GUID and the role and name sent, under the user key. */
  ghost predicate Rakp2Accepted(e: Env, v: V20, r1: bytes, answer: Received)
    requires |r1| >= 28
  {
    && answer.Payload?
    && var a, auth := answer.data, v.algs.auth;
    && |a| >= 40 + AuthCodeLength(auth)
    && a[1] == 0
    && U32At(a, 4) == v.consoleSessionID
    && exists d, key ::
      && IsRakp2Input(d, v.consoleSessionID, U32At(r1, 4), r1[8..24], a[8..24], a[24..40], r1[24], r1[28..])
      && IsUserKey(key, e.password)
      && IsAuthCode(e.crypto, auth, d, key, a[40..40 + AuthCodeLength(auth)])
  }

  /** RAKP Message 3 reported no error, with the code over the managed system's
      number, the console's id and the role and name of RAKP Message 1. */
  ghost predicate Rakp3Proves(e: Env, v: V20, r1: bytes, answer2: Received, r3: bytes)
    requires |r1| >= 28
  {
    && answer2.Payload? && |answer2.data| >= 40
    && |r3| >= 8 && r3[1] == 0 && U32At(r3, 4) == U32At(r1, 4)
    && exists d, key ::
      && IsRakp3Input(d, answer2.data[8..24], v.consoleSessionID, r1[24], r1[28..])
      && IsUserKey(key, e.password)
      && IsAuthCode(e.crypto, v.algs.auth, d, key, r3[8..])
  }

  /** The session's keys are those over the numbers, role and name exchanged, and
      the answer to RAKP Message 3 carries the check value under SIK. */
  ghost predicate Rakp4Accepted(e: Env, v: V20, r1: bytes, answer2: Received, answer4: Received)
    requires |r1| >= 28
  {
    && answer2.Payload? && |answer2.data| >= 40
    && answer4.Payload?
    && v.sik.Some? && v.k1.Some? && v.k2.Some?
    && var a2, a4, n := answer2.data, answer4.data, IntegrityLength(v.algs.integrity);
    && (exists kuid :: IsUserKey(kuid, e.password)
          && AreKeysOver(e.crypto, v.algs.auth, v.bmcKey, kuid, r1[8..24], a2[8..24], r1[24], r1[28..],
                         Keys(v.sik.value, v.k1.value, v.k2.value)))
    && |a4| >= 8 + n
    && a4[1] == 0
    && U32At(a4, 4) == v.consoleSessionID
    && exists d :: IsRakp4Input(d, r1[8..24], U32At(r1, 4), a2[24..40])
                   && IsIntegrityCode(e.crypto, v.algs.integrity, d, v.sik.value, a4[8..8 + n])
  }

  /** The fields of a RAKP Message 1 stand where the formulas read them. */
  lemma Rakp1Fields(sid: uint32, randM: Block, role: byte, name: bytes)
    ensures var m := Rakp1Message(sid, randM, role, name);
      U32At(m, 4) == sid && m[8..24] == randM && m[24] == role && m[27] == |name| % 0x100 && m[28..] == name
  {
    var m := Rakp1Message(sid, randM, role, name);
    assert m[4..8] == LE32(sid);
    LE32RoundTrip(sid, m, 4);
    assert m[8..24] == randM;
    assert m[28..] == name;
  }

  lemma OpenEvidence(e: Env, l: Link)
    ensures var (l', accepted) := OpenSession(e, l);
      && l'.v20.state != Active && l'.v20.cipherSuiteID == l.v20.cipherSuiteID
      && |l'.sent| == |l.sent| + 1 && l'.sent[..|l.sent|] == l.sent
      && l'.sent[|l.sent|].payloadType == OPEN_SESSION_REQUEST
      && (accepted ==> OpenAccepted(l'.v20, e.receive(l'.sent)))
  {}

  /** The answer to RAKP Message 1 passed the check, and the session holds what it carried. */
  ghost predicate Rakp2Evidence(e: Env, l: Link)
  {
    && l.sent != []
    && var v, m := l.v20, l.sent[|l.sent| - 1];
    && m.payloadType == RAKP_MESSAGE_1
    && |m.payload| >= 28
    && v.bmcSessionID == U32At(m.payload, 4) && v.consoleRand == m.payload[8..24]
    && v.role == m.payload[24] && e.username == m.payload[28..]
    && Rakp2Accepted(e, v, m.payload, e.receive(l.sent))
    && v.bmcRand == e.receive(l.sent).data[8..24] && v.bmcGUID == e.receive(l.sent).data[24..40]
    && v.rakp2ReturnCode == NO_ERRORS
  }

  lemma Rakp1Evidence(e: Env, l: Link)
    ensures var (l', exchanged) := Rakp1(e, l);
      && l'.v20.state != Active && l'.v20.cipherSuiteID == l.v20.cipherSuiteID
      && l'.v20.algs == l.v20.algs && l'.v20.consoleSessionID == l.v20.consoleSessionID
      && l'.v20.bmcSessionID == l.v20.bmcSessionID
      && |l'.sent| == |l.sent| + 1 && l'.sent[..|l.sent|] == l.sent
      && (exchanged ==> Rakp2Evidence(e, l'))
  {
    hide AuthHmac, Rakp2Data, IsRakp2Input, IsAuthCode, IsUserKey, Kuid;
    Rakp1Fields(l.v20.bmcSessionID, e.random(|l.sent|), Role(e.maxPrivilege), e.username);
    var (l', exchanged) := Rakp1(e, l);
    if exchanged {
      var v := l'.v20;
      Rakp2Layout(v.consoleSessionID, v.bmcSessionID, v.consoleRand, v.bmcRand, v.bmcGUID, v.role, e.username);
      KuidLayout(e.password);
      var d := Rakp2Data(v.consoleSessionID, v.bmcSessionID, v.consoleRand, v.bmcRand, v.bmcGUID, v.role, e.username);
      AuthHmacIsCode(e.crypto, v.algs.auth, d, Kuid(e.password), Rakp2Code(e, v).value);
      var r1, a, n := l'.sent[|l.sent|].payload, e.receive(l'.sent).data, AuthCodeLength(v.algs.auth);
      assert IsRakp2Input(d, v.consoleSessionID, U32At(r1, 4), r1[8..24], a[8..24], a[24..40], r1[24], r1[28..])
        && IsUserKey(Kuid(e.password), e.password)
        && IsAuthCode(e.crypto, v.algs.auth, d, Kuid(e.password), a[40..40 + n]);
    }
  }

  lemma Rakp3Evidence(e: Env, l: Link)
    requires Rakp2Evidence(e, l)
    ensures var (l', success) := Rakp3(e, l);
      && l'.v20.cipherSuiteID == l.v20.cipherSuiteID
      && (success ==>
        && l'.v20.algs == l.v20.algs && l'.v20.consoleSessionID == l.v20.consoleSessionID
        && l'.v20.bmcSessionID == l.v20.bmcSessionID
        && l'.v20.state == Active
        && |l'.sent| == |l.sent| + 1 && l'.sent[..|l.sent|] == l.sent
        && l'.sent[|l.sent|].payloadType == RAKP_MESSAGE_3
        && Rakp3Proves(e, l'.v20, l.sent[|l.sent| - 1].payload, e.receive(l.sent), l'.sent[|l.sent|].payload)
        && Rakp4Accepted(e, l'.v20, l.sent[|l.sent| - 1].payload, e.receive(l.sent), e.receive(l'.sent)))
      && (!success && l.v20.state != Active ==> l'.v20.state != Active)
  {
    hide AuthHmac, IntegrityHmac, DeriveKeys, Rakp2Data, Rakp3Data, Rakp4Data, SikData, Kuid;
    hide Rakp2Accepted, Rakp3Proves, Rakp4Accepted;
    var (l', success) := Rakp3(e, l);
    if success {
      SentProof(e, l, l'.v20);
      CheckedValue(e, l, l'.v20, e.receive(l'.sent));
    }
  }

  /** What a successful last exchange has sent. */
  lemma SentProof(e: Env, l: Link, w: V20)
    requires Rakp2Evidence(e, l) && Rakp3Code(e, l.v20).Some?
    requires w.consoleSessionID == l.v20.consoleSessionID && w.algs == l.v20.algs
    ensures var v := l.v20;
      Rakp3Proves(e, w, l.sent[|l.sent| - 1].payload, e.receive(l.sent),
                  Rakp3Message(v.rakp2ReturnCode, v.bmcSessionID, Rakp3Code(e, v).value))
  {
    hide AuthHmac, Rakp3Data, IsRakp3Input, IsUserKey, IsAuthCode, Kuid, LE32, U32At;
    var v := l.v20;
    var r1, code := l.sent[|l.sent| - 1].payload, Rakp3Code(e, v).value;
    var r3 := Rakp3Message(v.rakp2ReturnCode, v.bmcSessionID, code);
    assert r3[4..8] == LE32(v.bmcSessionID);
    LE32RoundTrip(v.bmcSessionID, r3, 4);
    assert r3[8..] == code;
    var d := Rakp3Data(v.bmcRand, v.consoleSessionID, v.role, e.username);
    Rakp3Layout(v.bmcRand, v.consoleSessionID, v.role, e.username);
    KuidLayout(e.password);
    AuthHmacIsCode(e.crypto, v.algs.auth, d, Kuid(e.password), code);
    assert IsRakp3Input(d, e.receive(l.sent).data[8..24], w.consoleSessionID, r1[24], r1[28..])
      && IsUserKey(Kuid(e.password), e.password)
      && IsAuthCode(e.crypto, w.algs.auth, d, Kuid(e.password), r3[8..]);
  }

  /** What a successful last exchange has checked. */
  lemma CheckedValue(e: Env, l: Link, w: V20, answer: Received)
    requires Rakp2Evidence(e, l) && ClientKeys(e, l.v20).Some?
    requires var keys := ClientKeys(e, l.v20).value;
      w == l.v20.(sik := Some(keys.sik), k1 := Some(keys.k1), k2 := Some(keys.k2), state := Active)
    requires Rakp4Reply(answer, w.algs.auth).Some? && ValidRakp4(e, w, Rakp4Reply(answer, w.algs.auth).value)
    ensures Rakp4Accepted(e, w, l.sent[|l.sent| - 1].payload, e.receive(l.sent), answer)
  {
    hide AuthHmac, IntegrityHmac, DeriveKeys, Rakp4Data, SikData, Kuid;
    hide IsRakp4Input, IsUserKey, IsIntegrityCode, AreKeysOver, Rakp2Accepted;
    assert e.receive(l.sent).Payload? && |e.receive(l.sent).data| >= 40 by { AnswerIsThere(e, l); }
    var v, keys, mac := l.v20, ClientKeys(e, l.v20).value, Rakp4Code(e, w).value;
    var r1, a2, a4 := l.sent[|l.sent| - 1].payload, e.receive(l.sent).data, answer.data;
    DerivedKeys(e.crypto, v.algs.auth, v.bmcKey, Kuid(e.password), v.consoleRand, v.bmcRand, v.role, e.username);
    KuidLayout(e.password);
    assert IsUserKey(Kuid(e.password), e.password)
      && AreKeysOver(e.crypto, w.algs.auth, w.bmcKey, Kuid(e.password), r1[8..24], a2[8..24], r1[24], r1[28..],
                     Keys(w.sik.value, w.k1.value, w.k2.value));
    var d, n := Rakp4Data(v.consoleRand, v.bmcSessionID, v.bmcGUID), IntegrityLength(w.algs.integrity);
    Rakp4Layout(v.consoleRand, v.bmcSessionID, v.bmcGUID);
    IntegrityHmacIsCode(e.crypto, w.algs.integrity, d, w.sik.value, mac);
    assert a4[8..8 + CheckValueLength(w.algs.auth)] == mac;
    assert |mac| == n && |a4[8..8 + CheckValueLength(w.algs.auth)]| == CheckValueLength(w.algs.auth);
    assert IsRakp4Input(d, r1[8..24], U32At(r1, 4), a2[24..40])
      && IsIntegrityCode(e.crypto, w.algs.integrity, d, w.sik.value, a4[8..8 + n]);
  }

  lemma AnswerIsThere(e: Env, l: Link)
    requires Rakp2Evidence(e, l)
    ensures e.receive(l.sent).Payload? && |e.receive(l.sent).data| >= 40
  {}

  /** The evidence goes by the ids and algorithms only. */
  lemma EvidenceCarries(e: Env, v: V20, w: V20, r1: bytes, answer: Received)
    requires w.algs == v.algs && w.consoleSessionID == v.consoleSessionID && w.bmcSessionID == v.bmcSessionID
    ensures OpenAccepted(v, answer) ==> OpenAccepted(w, answer)
    ensures |r1| >= 28 && Rakp2Accepted(e, v, r1, answer) ==> Rakp2Accepted(e, w, r1, answer)
  {}

  /** An attempt that succeeds leaves an Active session, with the evidence. */
  lemma AttemptIsAuthenticated(e: Env, l: Link, id: byte)
    ensures var (l', success) := TrySuite(e, l, id);
      && (success <==> l'.v20.state == Active)
      && (success ==> Authenticated(e, l') && l'.v20.cipherSuiteID == id)
  {
    hide SentByAttempt, OpenAccepted, Rakp2Accepted, Rakp3Proves, Rakp4Accepted, OpenSession, Rakp1, Rakp3;
    var l0 := l.(v20 := l.v20.(cipherSuiteID := id));
    AttemptSends(e, l, id);
    OpenEvidence(e, l0);
    var (l1, accepted) := OpenSession(e, l0);
    if accepted {
      Rakp1Evidence(e, l1);
      var (l2, exchanged) := Rakp1(e, l1);
      if exchanged {
        Rakp3Evidence(e, l2);
        var (l3, success) := Rakp3(e, l2);
        if success {
          assert l3.sent[..|l3.sent| - 1] == l2.sent && l3.sent[..|l3.sent| - 2] == l1.sent;
          EvidenceCarries(e, l1.v20, l3.v20, [], e.receive(l1.sent));
          EvidenceCarries(e, l2.v20, l3.v20, l2.sent[|l2.sent| - 1].payload, e.receive(l2.sent));
        }
      }
    }
  }

  /** The suite loop ends Active exactly when it reports success, whatever the
      other side answers, unless it has no suite to try and was Active before. */
  lemma {:induction false} LoopIsSafe(e: Env, l: Link, ids: seq<byte>)
    ensures var (l', success) := TrySuites(e, l, ids);
      && (success ==> l'.v20.state == Active && Authenticated(e, l') && l'.v20.cipherSuiteID in ids)
      && ((success <==> l'.v20.state == Active) <==> (ids != [] || l.v20.state != Active))
    decreases |ids|
  {
    if ids != [] {
      AttemptIsAuthenticated(e, l, ids[0]);
      var (l1, success) := TrySuite(e, l, ids[0]);
      if !success {
        LoopIsSafe(e, l1, ids[1..]);
      }
    }
  }

  // ----- usable keys -----

  /** In an Active session the authentication algorithm is one of the RAKP-HMAC
      ones and the integrity algorithm one of the HMAC ones, SHA1 goes with
      SHA1-96, and the keys are there with the lengths the packet layer needs. */
  ghost predicate KeysUsable(v: V20)
  {
    v.state == Active ==>
      && v.algs.auth in {RAKP_HMAC_SHA1, RAKP_HMAC_MD5, RAKP_HMAC_SHA256}
      && v.algs.integrity in {HMAC_SHA1_96, HMAC_MD5_128, HMAC_SHA256_128}
      && (v.algs.auth == RAKP_HMAC_SHA1 <==> v.algs.integrity == HMAC_SHA1_96)
      && v.sik.Some? && v.k1.Some? && v.k2.Some?
      && |v.k1.value| == |v.k2.value| == AuthCodeLength(v.algs.auth) >= 16
  }

  /** RAKP Message 3 makes a session Active only with usable keys, in whatever
      state it is sent, and the other two exchanges leave no session Active. */
  lemma ExchangesKeepKeysUsable(e: Env, l: Link)
    requires KeysUsable(l.v20)
    ensures OpenSession(e, l).0.v20.state != Active
    ensures Rakp1(e, l).0.v20.state != Active
    ensures KeysUsable(Rakp3(e, l).0.v20)
  {
    if ClientKeys(e, l.v20).Some? {
      var (l', success) := Rakp3(e, l);
      if success {
        var res := Rakp4Reply(e.receive(l'.sent), l'.v20.algs.auth).value;
        assert |res.checkValue.value| == CheckValueLength(l'.v20.algs.auth);
        assert |Rakp4Code(e, l'.v20).value| == IntegrityLength(l'.v20.algs.integrity);
      }
    }
  }

  lemma {:induction false} ConnectKeepsKeysUsable(e: Env, l: Link, ids: seq<byte>)
    requires KeysUsable(l.v20)
    ensures KeysUsable(TrySuites(e, l, ids).0.v20)
    decreases |ids|
  {
    hide OpenSession, Rakp1, Rakp3;
    if ids != [] {
      var l0 := l.(v20 := l.v20.(cipherSuiteID := ids[0]));
      var (l1, accepted) := OpenSession(e, l0);
      ExchangesKeepKeysUsable(e, l0);
      ExchangesKeepKeysUsable(e, l1);
      ExchangesKeepKeysUsable(e, Rakp1(e, l1).0);
      ConnectKeepsKeysUsable(e, TrySuite(e, l, ids[0]).0, ids[1..]);
    }
  }

  // ----- agreement with a managed system that follows the specification -----

  /** Whatever happened before, the managed system answers an attempt that asks
      for the first algorithms as the specification says for the second ones,
      and its Open Session Response carries those. */
  ghost predicate Grants(e: Env, b: Bmc, asked: Algorithms, granted: Algorithms)
  {
    forall h: seq<Sent> :: GrantsAt(e, b, asked, granted, h)
  }

  /** The same for the attempt that starts after h. */
  ghost predicate GrantsAt(e: Env, b: Bmc, asked: Algorithms, granted: Algorithms, h: seq<Sent>)
  {
    forall r1: bytes, r3: bytes :: AnswersAs(e, b, asked, granted, h, r1, r3)
  }

  ghost predicate AnswersAs(e: Env, b: Bmc, asked: Algorithms, granted: Algorithms, h: seq<Sent>, r1: bytes, r3: bytes)
  {
    var o := OpenSessionRequest(CONSOLE_SESSION_ID, granted);
    var h1 := h + [Sent(OPEN_SESSION_REQUEST, OpenSessionRequest(CONSOLE_SESSION_ID, asked))];
    var h2 := h1 + [Sent(RAKP_MESSAGE_1, r1)];
    var h3 := h2 + [Sent(RAKP_MESSAGE_3, r3)];
    && e.receive(h1) == Payload(OpenAnswer(b, h, o))
    && (|r1| >= 28 ==> e.receive(h2) == Payload(Rakp2Answer(e.crypto, b, h, o, r1)))
    && (|r1| >= 28 && |r3| >= 8 ==> e.receive(h3) == Payload(Rakp4Answer(e.crypto, b, h, o, r1, r3)))
  }

  /** A managed system that follows the specification grants what is asked. */
  ghost predicate FollowsSpec(e: Env, b: Bmc, algs: Algorithms)
  {
    Grants(e, b, algs, algs)
  }

  /** A managed system that grants the same algorithms whatever is asked. */
  function FixedAnswer(c: Suite, b: Bmc, granted: Algorithms, h: seq<Sent>): Received
  {
    var n, o := |h|, OpenSessionRequest(CONSOLE_SESSION_ID, granted);
    if n >= 1 && h[n - 1].payloadType == OPEN_SESSION_REQUEST then Payload(OpenAnswer(b, h[..n - 1], o))
    else if n >= 2 && h[n - 1].payloadType == RAKP_MESSAGE_1 && |h[n - 1].payload| >= 28 then
      Payload(Rakp2Answer(c, b, h[..n - 2], o, h[n - 1].payload))
    else if n >= 3 && h[n - 1].payloadType == RAKP_MESSAGE_3 && |h[n - 2].payload| >= 28 && |h[n - 1].payload| >= 8 then
      Payload(Rakp4Answer(c, b, h[..n - 3], o, h[n - 2].payload, h[n - 1].payload))
    else NoReply
  }

  lemma FixedAnswerGrants(e: Env, b: Bmc, asked: Algorithms, granted: Algorithms)
    requires forall h :: e.receive(h) == FixedAnswer(e.crypto, b, granted, h)
    ensures Grants(e, b, asked, granted)
  {
    hide FixedAnswer, GrantsAt;
    forall h: seq<Sent>
      ensures GrantsAt(e, b, asked, granted, h)
    {
      FixedAnswerGrantsAt(e, b, asked, granted, h);
    }
  }

  lemma FixedAnswerGrantsAt(e: Env, b: Bmc, asked: Algorithms, granted: Algorithms, h: seq<Sent>)
    requires forall h :: e.receive(h) == FixedAnswer(e.crypto, b, granted, h)
    ensures GrantsAt(e, b, asked, granted, h)
  {
    hide OpenAnswer, Rakp2Answer, Rakp4Answer, OpenSessionRequest;
    forall r1: bytes, r3: bytes
      ensures AnswersAs(e, b, asked, granted, h, r1, r3)
    {
      var h1 := h + [Sent(OPEN_SESSION_REQUEST, OpenSessionRequest(CONSOLE_SESSION_ID, asked))];
      var h2 := h1 + [Sent(RAKP_MESSAGE_1, r1)];
      var h3 := h2 + [Sent(RAKP_MESSAGE_3, r3)];
      assert h1[..|h1| - 1] == h && h2[..|h2| - 2] == h && h3[..|h3| - 3] == h;
    }
  }

  /** The suites an attempt can succeed with: a RAKP-HMAC authentication and an
      HMAC integrity algorithm. */
  predicate Connectable(a: Algorithms)
  {
    a.auth in {RAKP_HMAC_SHA1, RAKP_HMAC_MD5, RAKP_HMAC_SHA256}
    && a.integrity in {HMAC_SHA1_96, HMAC_MD5_128, HMAC_SHA256_128}
  }

  lemma OpenSessionFields(a: Algorithms)
    ensures var o := OpenSessionRequest(CONSOLE_SESSION_ID, a);
      U32At(o, 4) == CONSOLE_SESSION_ID && o[12] == a.auth && o[20] == a.integrity && o[28] == a.crypt
  {
    var o := OpenSessionRequest(CONSOLE_SESSION_ID, a);
    assert o[4..8] == LE32(CONSOLE_SESSION_ID);
    LE32RoundTrip(CONSOLE_SESSION_ID, o, 4);
  }

  /** The client takes the ids and algorithms of the answer to its request,
      whether or not they are those it asked for. */
  lemma OpenAgrees(e: Env, b: Bmc, l: Link, granted: Algorithms)
    requires GrantsAt(e, b, SuiteAlgorithms(l.v20.cipherSuiteID), granted, l.sent)
    ensures var (l', accepted) := OpenSession(e, l);
      && accepted && l'.v20.algs == granted && l'.v20.bmcKey == l.v20.bmcKey
      && l'.v20.consoleSessionID == CONSOLE_SESSION_ID && l'.v20.bmcSessionID == b.sessionID(l.sent)
      && l'.sent == l.sent + [Sent(OPEN_SESSION_REQUEST,
                                   OpenSessionRequest(CONSOLE_SESSION_ID, SuiteAlgorithms(l.v20.cipherSuiteID)))]
  {
    hide SuiteAlgorithms;
    var a := SuiteAlgorithms(l.v20.cipherSuiteID);
    var o, sid := OpenSessionRequest(CONSOLE_SESSION_ID, granted), b.sessionID(l.sent);
    assert AnswersAs(e, b, a, granted, l.sent, [], []);
    var d := OpenAnswer(b, l.sent, o);
    OpenSessionFields(granted);
    assert d[4..8] == o[4..8] == LE32(CONSOLE_SESSION_ID);
    LE32RoundTrip(CONSOLE_SESSION_ID, d, 4);
    assert d[8..12] == LE32(sid);
    LE32RoundTrip(sid, d, 8);
    assert d[16] == o[12] && d[24] == o[20] && d[32] == o[28];
  }

  /** The managed system's answer to RAKP Message 1 unpacks to its numbers and
      the code over the very ids, numbers, role and name the client sent. */
  lemma Rakp2AnswerUnpacks(c: Suite, b: Bmc, h: seq<Sent>, a: Algorithms, randM: Block, role: byte, name: bytes)
    requires |name| < 0x100
    ensures var sid, randC := b.sessionID(h), b.random(h);
      var o, r1 := OpenSessionRequest(CONSOLE_SESSION_ID, a), Rakp1Message(sid, randM, role, name);
      var code := AuthHmac(c, a.auth, Rakp2Data(CONSOLE_SESSION_ID, sid, randM, randC, b.guid, role, name), b.kuid);
      && RakpName(r1) == name
      && ParseRakp2(Rakp2Answer(c, b, h, o, r1), a.auth)
         == Some(Rakp2Response(NO_ERRORS, CONSOLE_SESSION_ID, randC, b.guid,
                               Some(if code.Some? then code.value else [])))
  {
    var sid, randC := b.sessionID(h), b.random(h);
    var o, r1 := OpenSessionRequest(CONSOLE_SESSION_ID, a), Rakp1Message(sid, randM, role, name);
    var code := AuthHmac(c, a.auth, Rakp2Data(CONSOLE_SESSION_ID, sid, randM, randC, b.guid, role, name), b.kuid);
    Rakp1Fields(sid, randM, role, name);
    OpenSessionFields(a);
    assert RakpName(r1) == name;
    var d := Rakp2Answer(c, b, h, o, r1);
    assert d[4..8] == o[4..8] == LE32(CONSOLE_SESSION_ID);
    LE32RoundTrip(CONSOLE_SESSION_ID, d, 4);
    assert d[8..24] == randC && d[24..40] == b.guid;
    assert d[40..] == if code.Some? then code.value else [];
    assert d[40..40 + AuthCodeLength(a.auth)] == d[40..];
  }

  /** Both sides compute the same RAKP Message 2 code. */
  lemma Rakp2Agrees(e: Env, b: Bmc, h: seq<Sent>, l: Link, asked: Algorithms)
    requires |e.username| < 0x100 && b.kuid == Kuid(e.password)
    requires GrantsAt(e, b, asked, l.v20.algs, h)
    requires l.v20.consoleSessionID == CONSOLE_SESSION_ID && l.v20.bmcSessionID == b.sessionID(h)
    requires l.sent == h + [Sent(OPEN_SESSION_REQUEST, OpenSessionRequest(CONSOLE_SESSION_ID, asked))]
    ensures var (l', exchanged) := Rakp1(e, l);
      var r1 := Rakp1Message(b.sessionID(h), e.random(|l.sent|), Role(e.maxPrivilege), e.username);
      && (exchanged <==> AuthCodeLength(l.v20.algs.auth) > 0)
      && l'.sent == l.sent + [Sent(RAKP_MESSAGE_1, r1)]
      && (exchanged ==>
        l'.v20 == l.v20.(state := Rakp2Received, consoleRand := e.random(|l.sent|), role := Role(e.maxPrivilege),
                         rakp2ReturnCode := NO_ERRORS, bmcRand := b.random(h), bmcGUID := b.guid))
  {
    var a, sid, randM, role := l.v20.algs, b.sessionID(h), e.random(|l.sent|), Role(e.maxPrivilege);
    var r1 := Rakp1Message(sid, randM, role, e.username);
    assert AnswersAs(e, b, asked, a, h, r1, []);
    Rakp2AnswerUnpacks(e.crypto, b, h, a, randM, role, e.username);
  }

  /** The managed system accepts RAKP Message 3, holds the client's keys, and
      its answer unpacks to the check value of section 13.28.1. */
  lemma Rakp4AnswerUnpacks(c: Suite, b: Bmc, h: seq<Sent>, a: Algorithms, randM: Block, role: byte, name: bytes)
    requires |name| < 0x100 && AuthCodeLength(a.auth) > 0
    ensures var sid, randC := b.sessionID(h), b.random(h);
      var o, r1 := OpenSessionRequest(CONSOLE_SESSION_ID, a), Rakp1Message(sid, randM, role, name);
      var r3 := Rakp3Message(NO_ERRORS, sid, AuthHmac(c, a.auth, Rakp3Data(randC, CONSOLE_SESSION_ID, role, name), b.kuid).value);
      var keys := DeriveKeys(c, a.auth, SikData(randM, randC, role, name), SikKey(b.kg, b.kuid));
      && BmcKeys(c, b, h, o, r1) == keys
      && var mac := AuthHmac(c, a.auth, Rakp4Data(randM, sid, b.guid), keys.value.sik).value;
      ParseRakp4(Rakp4Answer(c, b, h, o, r1, r3), a.auth)
      == Some(Rakp4Response(NO_ERRORS, CONSOLE_SESSION_ID, Some(mac[..CheckValueLength(a.auth)])))
  {
    var sid, randC := b.sessionID(h), b.random(h);
    var o, r1 := OpenSessionRequest(CONSOLE_SESSION_ID, a), Rakp1Message(sid, randM, role, name);
    Rakp1Fields(sid, randM, role, name);
    OpenSessionFields(a);
    assert RakpName(r1) == name;
    var code := AuthHmac(c, a.auth, Rakp3Data(randC, CONSOLE_SESSION_ID, role, name), b.kuid).value;
    var r3 := Rakp3Message(NO_ERRORS, sid, code);
    assert r3[4..8] == LE32(sid);
    LE32RoundTrip(sid, r3, 4);
    assert r3[8..] == code;
    var d := Rakp4Answer(c, b, h, o, r1, r3);
    assert d[4..8] == o[4..8] == LE32(CONSOLE_SESSION_ID);
    LE32RoundTrip(CONSOLE_SESSION_ID, d, 4);
    assert d[8..8 + CheckValueLength(a.auth)] == d[8..];
  }

  /** One attempt against a managed system that shares the user key and grants
      algorithms of one hash, asked for or not: the session becomes Active
      exactly when they are ones whose check value the client knows. It then has
      the granted algorithms, and both sides hold the keys derived from this
      attempt's numbers, role and name. */
  lemma AttemptGetsGranted(e: Env, b: Bmc, l: Link, id: byte, granted: Algorithms)
    requires |e.username| < 0x100 && b.kuid == Kuid(e.password) && b.kg == l.v20.bmcKey
    requires GrantsAt(e, b, SuiteAlgorithms(id), granted, l.sent) && SuiteWide(granted)
    ensures var (l', success) := TrySuite(e, l, id);
      && (success <==> Connectable(granted))
      && (success ==> l'.v20.algs == granted
                      && KeysAgree(e, b, l.sent, OpenSessionRequest(CONSOLE_SESSION_ID, granted), l'))
  {
    hide SuiteAlgorithms, GrantsAt, KeysAgree;
    var h := l.sent;
    var l0 := l.(v20 := l.v20.(cipherSuiteID := id));
    OpenAgrees(e, b, l0, granted);
    var l1 := OpenSession(e, l0).0;
    Rakp2Agrees(e, b, h, l1, SuiteAlgorithms(id));
    var (l2, exchanged) := Rakp1(e, l1);
    if exchanged {
      Rakp3Agrees(e, b, h, l2, SuiteAlgorithms(id));
    }
  }

  /** The same for a managed system that follows the specification and so grants
      the suite tried; the keys are then those of the payloads exchanged. */
  lemma AttemptAgrees(e: Env, b: Bmc, l: Link, id: byte)
    requires |e.username| < 0x100 && b.kuid == Kuid(e.password) && b.kg == l.v20.bmcKey
    requires GrantsAt(e, b, SuiteAlgorithms(id), SuiteAlgorithms(id), l.sent)
    ensures var (l', success) := TrySuite(e, l, id);
      && (success <==> Connectable(SuiteAlgorithms(id)))
      && (success ==> SentKeysAgree(e, b, l.sent, l'))
  {
    hide TrySuite, GrantsAt, BmcKeys;
    assert SuiteWide(SuiteAlgorithms(id));
    AttemptGetsGranted(e, b, l, id, SuiteAlgorithms(id));
    AttemptAsksForSuite(e, l, id);
  }

  lemma AttemptAsksForSuite(e: Env, l: Link, id: byte)
    ensures var l' := TrySuite(e, l, id).0;
      && |l'.sent| > |l.sent|
      && l'.sent[|l.sent|] == Sent(OPEN_SESSION_REQUEST, OpenSessionRequest(CONSOLE_SESSION_ID, SuiteAlgorithms(id)))
  {
    hide SuiteAlgorithms, AuthHmac, IntegrityHmac, ValidRakp2, ValidRakp4;
  }

  /** The last exchange, for algorithms of one hash. */
  lemma Rakp3Agrees(e: Env, b: Bmc, h: seq<Sent>, l: Link, asked: Algorithms)
    requires |e.username| < 0x100 && b.kuid == Kuid(e.password) && b.kg == l.v20.bmcKey
    requires GrantsAt(e, b, asked, l.v20.algs, h) && AuthCodeLength(l.v20.algs.auth) > 0
    requires SuiteWide(l.v20.algs)
    requires l.v20.consoleSessionID == CONSOLE_SESSION_ID && l.v20.bmcSessionID == b.sessionID(h)
    requires l.v20.bmcRand == b.random(h) && l.v20.bmcGUID == b.guid && l.v20.rakp2ReturnCode == NO_ERRORS
    requires l.sent == h + [Sent(OPEN_SESSION_REQUEST, OpenSessionRequest(CONSOLE_SESSION_ID, asked))]
                         + [Sent(RAKP_MESSAGE_1, Rakp1Message(b.sessionID(h), l.v20.consoleRand, l.v20.role, e.username))]
    ensures var (l', success) := Rakp3(e, l);
      && (success <==> Connectable(l.v20.algs))
      && (success ==> l'.v20.algs == l.v20.algs && KeysAgree(e, b, h, OpenSessionRequest(CONSOLE_SESSION_ID, l.v20.algs), l'))
  {
    var v := l.v20;
    var a, sid := v.algs, b.sessionID(h);
    var r1 := Rakp1Message(sid, v.consoleRand, v.role, e.username);
    var r3 := Rakp3Message(NO_ERRORS, sid, Rakp3Code(e, v).value);
    assert AnswersAs(e, b, asked, a, h, r1, r3);
    Rakp4AnswerUnpacks(e.crypto, b, h, a, v.consoleRand, v.role, e.username);
    Rakp1Fields(sid, v.consoleRand, v.role, e.username);
    OpenSessionFields(a);
    DerivedKeys(e.crypto, a.auth, b.kg, b.kuid, v.consoleRand, v.bmcRand, v.role, e.username);
  }

  /** The cipher suites pair an HMAC integrity algorithm with the
      authentication algorithm of the same hash. */
  predicate SuiteWide(a: Algorithms)
  {
    && (a.integrity == HMAC_SHA1_96 ==> a.auth == RAKP_HMAC_SHA1)
    && (a.integrity == HMAC_MD5_128 ==> a.auth == RAKP_HMAC_MD5)
    && (a.integrity == HMAC_SHA256_128 ==> a.auth == RAKP_HMAC_SHA256)
  }

  /** The session's keys are those the managed system computed in the attempt
      that started after h, from the algorithms of o and the payloads sent. */
  ghost predicate KeysAgree(e: Env, b: Bmc, h: seq<Sent>, o: bytes, l: Link)
  {
    && |l.sent| == |h| + 3 && h <= l.sent
    && var r1 := l.sent[|h| + 1].payload;
    && |o| == 32 && |r1| >= 28
    && var keys := BmcKeys(e.crypto, b, h, o, r1);
    && keys.Some?
    && l.v20.sik == Some(keys.value.sik) && l.v20.k1 == Some(keys.value.k1) && l.v20.k2 == Some(keys.value.k2)
    && AreKeysOver(e.crypto, o[12], b.kg, b.kuid, r1[8..24], b.random(h), r1[24], r1[28..], keys.value)
  }

  /** The same with the algorithms that were asked for. */
  ghost predicate SentKeysAgree(e: Env, b: Bmc, h: seq<Sent>, l: Link)
  {
    |l.sent| == |h| + 3 && KeysAgree(e, b, h, l.sent[|h|].payload, l)
  }

  /** Connecting with a suite list that has a suite the managed system answers
      to specification, and that is connectable, succeeds, whatever the answers
      to the other attempts are; and if the suite that succeeded is one of
      those, both sides hold the same keys. */
  lemma {:induction false} ConnectAgrees(e: Env, b: Bmc, l: Link, ids: seq<byte>)
    requires |e.username| < 0x100 && b.kuid == Kuid(e.password) && b.kg == l.v20.bmcKey
    ensures var (l', success) := TrySuites(e, l, ids);
      && ((exists id :: id in ids && Connectable(SuiteAlgorithms(id)) && FollowsSpec(e, b, SuiteAlgorithms(id))) ==> success)
      && (success && FollowsSpec(e, b, SuiteAlgorithms(l'.v20.cipherSuiteID)) ==>
            |l'.sent| >= 3 && SentKeysAgree(e, b, l'.sent[..|l'.sent| - 3], l'))
    decreases |ids|
  {
    hide TrySuite, GrantsAt, SuiteAlgorithms, Connectable, AuthHmac, IntegrityHmac;
    if ids != [] {
      var (l1, success) := TrySuite(e, l, ids[0]);
      AttemptKeeps(e, l, ids[0]);
      if FollowsSpec(e, b, SuiteAlgorithms(ids[0])) {
        AttemptAgrees(e, b, l, ids[0]);
      }
      if success {
        if FollowsSpec(e, b, SuiteAlgorithms(ids[0])) {
          assert l1.sent[..|l1.sent| - 3] == l.sent;
        }
      } else {
        ConnectAgrees(e, b, l1, ids[1..]);
      }
    }
  }

  lemma AttemptKeeps(e: Env, l: Link, id: byte)
    ensures TrySuite(e, l, id).0.v20.bmcKey == l.v20.bmcKey
    ensures TrySuite(e, l, id).0.v20.cipherSuiteID == id
  {}

  // ----- the algorithms of a session -----

  /** Whatever is answered, an attempt succeeds only with algorithms of which
      the client knows the check value. They need not be those of the suite. */
  lemma SuccessIsConnectable(e: Env, l: Link, id: byte)
    ensures var (l', success) := TrySuite(e, l, id);
      success ==> Connectable(l'.v20.algs)
  {
    hide TrySuite, AuthHmac;
    AttemptIsAuthenticated(e, l, id);
  }

  /** The Open Session Response carries these algorithms, as bytes on the wire. */
  predicate CarriesAlgorithms(answer: Received, a: Algorithms)
  {
    && answer.Payload? && |answer.data| >= 36
    && answer.data[16] == a.auth && answer.data[24] == a.integrity && answer.data[32] == a.crypt
  }

  /** The client does not compare the algorithms it is given with those it asked
      for: after a successful attempt the session has the algorithms of the suite
      tried if and only if the Open Session Response carried them. */
  lemma SuiteIsKeptIfCarried(e: Env, l: Link, id: byte)
    ensures var (l', success) := TrySuite(e, l, id);
      var asked := Sent(OPEN_SESSION_REQUEST, OpenSessionRequest(CONSOLE_SESSION_ID, SuiteAlgorithms(id)));
      success ==>
        (l'.v20.algs == SuiteAlgorithms(id) <==> CarriesAlgorithms(e.receive(l.sent + [asked]), SuiteAlgorithms(id)))
  {
    hide SuiteAlgorithms, AuthHmac, IntegrityHmac, OpenSessionRequest;
    SuccessIsConnectable(e, l, id);
    var l0 := l.(v20 := l.v20.(cipherSuiteID := id));
    var l1 := OpenSession(e, l0).0;
    assert l1.sent == l.sent + [Sent(OPEN_SESSION_REQUEST, OpenSessionRequest(CONSOLE_SESSION_ID, SuiteAlgorithms(id)))];
    LaterExchangesKeepAlgorithms(e, l1);
  }

  lemma LaterExchangesKeepAlgorithms(e: Env, l: Link)
    ensures Rakp1(e, l).0.v20.algs == l.v20.algs && Rakp3(e, l).0.v20.algs == l.v20.algs
  {}

  /** The answer reports no error and grants the algorithms of the request, as bytes. */
  predicate GrantsRequest(o: bytes, answer: Received)
  {
    && |o| == 32 && answer.Payload? && |answer.data| >= 36 && answer.data[1] == 0
    && answer.data[16] == o[12] && answer.data[24] == o[20] && answer.data[32] == o[28]
  }

  /** An attempt that is granted what it asks for has, however it ends, the
      algorithms of the table; suites 3, 8, 12 and 17 thus AES-CBC-128. */
  lemma GrantedSuiteIsUsed(e: Env, l: Link, id: byte)
    ensures var l', n := TrySuite(e, l, id).0, |l.sent|;
      && |l'.sent| > n
      && (GrantsRequest(l'.sent[n].payload, e.receive(l'.sent[..n + 1])) ==>
            && l'.v20.algs == Algorithms(InTable(SUITE_AUTH, id), InTable(SUITE_INTEGRITY, id), InTable(SUITE_CRYPT, id))
            && (id in {3, 8, 12, 17} ==> l'.v20.algs.crypt == 1))
  {
    hide SuiteAlgorithms, AuthHmac, IntegrityHmac, OpenSessionRequest, Rakp1, Rakp3, IsOpenRequest, IsRakp1Message;
    AttemptSends(e, l, id);
    OpenRequestFields(id);
    var l1 := OpenSession(e, l.(v20 := l.v20.(cipherSuiteID := id))).0;
    assert l1.sent == l.sent + [Sent(OPEN_SESSION_REQUEST, OpenSessionRequest(CONSOLE_SESSION_ID, SuiteAlgorithms(id)))];
    assert TrySuite(e, l, id).0.sent[..|l.sent| + 1] == l1.sent by { FirstSent(e, l, id); }
    LaterExchangesKeepAlgorithms(e, l1);
    LaterExchangesKeepAlgorithms(e, Rakp1(e, l1).0);
  }

  lemma OpenRequestFields(id: byte)
    ensures var o := OpenSessionRequest(CONSOLE_SESSION_ID, SuiteAlgorithms(id));
      o[12] == InTable(SUITE_AUTH, id) && o[20] == InTable(SUITE_INTEGRITY, id) && o[28] == InTable(SUITE_CRYPT, id)
  {
    hide SuiteAlgorithms, InTable;
    SuiteIsInTable(id);
  }

  lemma FirstSent(e: Env, l: Link, id: byte)
    ensures var l1, l' := OpenSession(e, l.(v20 := l.v20.(cipherSuiteID := id))).0, TrySuite(e, l, id).0;
      l1.sent <= l'.sent && |l1.sent| == |l.sent| + 1
  {
    hide SuiteAlgorithms, AuthHmac, IntegrityHmac, ValidRakp2, ValidRakp4, OpenSessionRequest;
  }

  /** A client and a managed system that grants suite 16 whatever is asked. */
  function GrantingSuite16(c: Suite, name: bytes, password: bytes): Env
  {
    var b := Bmc(Kuid(password), [], ZERO_BLOCK, _ => 1, _ => ZERO_BLOCK);
    Env(c, name, password, 4, h => FixedAnswer(c, b, SuiteAlgorithms(16), h), _ => ZERO_BLOCK)
  }

  /** Such a managed system connects a client that tries suite 15, without any
      integrity algorithm, into a session with one. */
  lemma SuiteIsNotAlwaysKept(c: Suite, name: bytes, password: bytes)
    requires |name| < 0x100
    ensures var (l', success) := TrySuite(GrantingSuite16(c, name, password), Link(NEW_SESSION, []), 15);
      && success && l'.v20.state == Active
      && l'.v20.algs == SuiteAlgorithms(16) != SuiteAlgorithms(15) && !Connectable(SuiteAlgorithms(15))
  {
    hide TrySuite, FixedAnswer, GrantsAt, KeysAgree, Authenticated;
    var e, l := GrantingSuite16(c, name, password), Link(NEW_SESSION, []);
    var b := Bmc(Kuid(password), [], ZERO_BLOCK, _ => 1, _ => ZERO_BLOCK);
    FixedAnswerGrants(e, b, SuiteAlgorithms(15), SuiteAlgorithms(16));
    AttemptGetsGranted(e, b, l, 15, SuiteAlgorithms(16));
    AttemptIsAuthenticated(e, l, 15);
  }
}
