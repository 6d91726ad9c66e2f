/** Whole runs of a client in RMCP+ mode: connecting again and again, with any
    suites and any answers, and sending requests in between. */
module ClientRuns {
  import opened Bytes
  import opened Crypto
  import opened Handshake
  import Rakp
  import opened Packets
  import Datagrams

  datatype Op =
    | Connect(discovered: seq<byte>)
    | Send(payloadType: PayloadType, raw: bytes, iv: Block)

  /** `attempts` counts the packets asked for in Active sessions, `rc4Bytes` the
      payload bytes of those with xRC4, over all sessions of the client. */
  datatype World = World(link: Link, packets: seq<Session20>, attempts: nat, rc4Bytes: nat)

  function Apply(e: Env, w: World, op: Op): World
  {
    match op
    case Connect(discovered) => w.(link := Handshake.Connect(e, w.link, discovered).0)
    case Send(payloadType, raw, iv) =>
      var (v, r) := GenSession20(e, w.link.v20, payloadType, raw, iv);
      World(w.link.(v20 := v), if r.Ok? then w.packets + [r.value] else w.packets,
            if w.link.v20.state == Active then w.attempts + 1 else w.attempts,
            if UsesRc4(w.link.v20) then w.rc4Bytes + |raw| else w.rc4Bytes)
  }

  predicate UsesRc4(v: V20)
  {
    v.state == Active && v.algs.crypt in {XRC4_40, XRC4_128}
  }

  function After(e: Env, ops: seq<Op>): World
  {
    if ops == [] then World(Link(NEW_SESSION, []), [], 0, 0)
    else Apply(e, After(e, ops[..|ops| - 1]), ops[|ops| - 1])
  }

  /** Every packet outside a session is in clear with sequence number 0; every
      packet of a session is marked authenticated and encrypted, and carries a
      trailer unless its session id is 0. */
  ghost predicate Marked(s: Session20)
  {
    && s.header.encrypted == s.header.authenticated
    && (!s.header.authenticated ==> s.header.sessionID == 0 && s.header.sequence == 0)
    && (s.trailer.Some? <==> HasTrailer(s.header))
  }

  ghost predicate Safe(e: Env, w: World)
  {
    && (w.link.v20.state == Active ==> Authenticated(e, w.link))
    && KeysUsable(w.link.v20)
    && w.link.v20.sequence == w.attempts % 0x1_0000_0000
    && w.link.v20.accumulatedPayloadSize == w.rc4Bytes % 0x1_0000_0000
    && (forall s <- w.packets :: Marked(s))
  }

  /** Sending changes nothing the evidence of the handshake speaks about. */
  lemma SendKeepsEvidence(e: Env, l: Link, payloadType: PayloadType, raw: bytes, iv: Block)
    ensures var w := l.(v20 := GenSession20(e, l.v20, payloadType, raw, iv).0);
      Authenticated(e, l) ==> Authenticated(e, w)
  {
    hide Finish20, Authenticated, Handshake.KeysUsable;
    KeptByPacket(e, l.v20, payloadType, raw, iv);
    EvidenceStays(e, l, GenSession20(e, l.v20, payloadType, raw, iv).0);
  }

  /** The session fields the evidence goes by. */
  ghost predicate SameSession(v: V20, w: V20)
  {
    && w.cipherSuiteID == v.cipherSuiteID && w.algs == v.algs && w.bmcKey == v.bmcKey
    && w.consoleSessionID == v.consoleSessionID && w.bmcSessionID == v.bmcSessionID
    && w.sik == v.sik && w.k1 == v.k1 && w.k2 == v.k2
  }

  lemma KeptByPacket(e: Env, v: V20, payloadType: PayloadType, raw: bytes, iv: Block)
    ensures SameSession(v, GenSession20(e, v, payloadType, raw, iv).0)
  {
    hide Finish20;
  }

  lemma EvidenceStays(e: Env, l: Link, w: V20)
    requires SameSession(l.v20, w)
    ensures Authenticated(e, l) ==> Authenticated(e, l.(v20 := w))
  {
    hide IsAuthCode, IsIntegrityCode, IsOpenRequest, IsRakp1Message, Rakp.IsUserKey, Rakp.AreKeysOver;
    hide Rakp.IsRakp2Input, Rakp.IsRakp3Input, Rakp.IsRakp4Input;
  }

  lemma SentIsMarked(e: Env, v: V20, payloadType: PayloadType, raw: bytes, iv: Block)
    ensures var (w, r) := GenSession20(e, v, payloadType, raw, iv);
      && w.sequence == (if v.state == Active then (v.sequence + 1) % 0x1_0000_0000 else v.sequence)
      && w.accumulatedPayloadSize == (if UsesRc4(v) then (v.accumulatedPayloadSize + |raw|) % 0x1_0000_0000
                                      else v.accumulatedPayloadSize)
      && (r.Ok? ==> Marked(r.value))
  {
    hide GenTrailer;
  }

  lemma {:induction false} ConnectKeepsCounters(e: Env, l: Link, ids: seq<byte>)
    ensures TrySuites(e, l, ids).0.v20.sequence == l.v20.sequence
    ensures TrySuites(e, l, ids).0.v20.accumulatedPayloadSize == l.v20.accumulatedPayloadSize
    decreases |ids|
  {
    if ids != [] {
      AttemptKeepsCounters(e, l, ids[0]);
      ConnectKeepsCounters(e, TrySuite(e, l, ids[0]).0, ids[1..]);
    }
  }

  lemma AttemptKeepsCounters(e: Env, l: Link, id: byte)
    ensures TrySuite(e, l, id).0.v20.sequence == l.v20.sequence
    ensures TrySuite(e, l, id).0.v20.accumulatedPayloadSize == l.v20.accumulatedPayloadSize
  {
    hide AuthHmac, IntegrityHmac, ValidRakp2, ValidRakp4;
  }

  lemma ConnectIsSafe(e: Env, w: World, discovered: seq<byte>)
    requires Safe(e, w)
    ensures Safe(e, Apply(e, w, Connect(discovered)))
  {
    hide Authenticated, KeysUsable, Marked, GenSession20, TrySuites, Rakp.Kuid;
    var v := w.link.v20;
    var ids := if v.cipherSuiteID != CIPHER_SUITE_RESERVED then [v.cipherSuiteID] else discovered;
    LoopIsSafe(e, w.link, ids);
    ConnectKeepsKeysUsable(e, w.link, ids);
    ConnectKeepsCounters(e, w.link, ids);
    if ids == [] {
      NothingTried(e, w.link);
    }
  }

  lemma SendIsSafe(e: Env, w: World, payloadType: PayloadType, raw: bytes, iv: Block)
    requires Safe(e, w)
    ensures Safe(e, Apply(e, w, Send(payloadType, raw, iv)))
  {
    hide Authenticated, KeysUsable, Marked, GenSession20, TrySuites;
    SendKeepsEvidence(e, w.link, payloadType, raw, iv);
    PacketKeepsKeys(e, w.link.v20, payloadType, raw, iv);
    SentIsMarked(e, w.link.v20, payloadType, raw, iv);
  }

  lemma StepIsSafe(e: Env, w: World, op: Op)
    requires Safe(e, w)
    ensures Safe(e, Apply(e, w, op))
  {
    hide Safe, Apply;
    match op
    case Connect(discovered) => ConnectIsSafe(e, w, discovered);
    case Send(payloadType, raw, iv) => SendIsSafe(e, w, payloadType, raw, iv);
  }

  lemma NothingTried(e: Env, l: Link)
    ensures TrySuites(e, l, []) == (l, false)
  {}

  /** In every run from a new client, whatever the other side answers: an
      Active session has seen the answers the specification asks for, in its
      last attempt, and has usable keys. */
  lemma {:induction false} EveryRunIsSafe(e: Env, ops: seq<Op>)
    ensures Safe(e, After(e, ops))
  {
    if ops == [] {
    } else {
      EveryRunIsSafe(e, ops[..|ops| - 1]);
      StepIsSafe(e, After(e, ops[..|ops| - 1]), ops[|ops| - 1]);
    }
  }

  /** So in every reachable Active session the integrity code of any input can
      be computed with its wire length, and K2 has the 16 bytes of the AES key. */
  lemma ActiveSessionCanSeal(e: Env, ops: seq<Op>, input: bytes)
    requires After(e, ops).link.v20.state == Active
    ensures var v := After(e, ops).link.v20;
      && IntegrityCode(e, v, input).Ok?
      && |IntegrityCode(e, v, input).value| == (if v.algs.auth == RAKP_HMAC_SHA1 then 12 else 16)
      && v.k2.Some? && |v.k2.value| >= 16
  {
    hide After, Authenticated, AuthHmac;
    EveryRunIsSafe(e, ops);
  }

  /** Connecting again resets no counter. In every reachable Active session, be it
      the client's first or a later one, the next packet goes on from the numbers
      of all sessions before; and with xRC4 a receiver with the session's key
      reads it if and only if the payload bytes sent with xRC4 in all sessions
      are a multiple of 2^32, for instance none. */
  lemma LaterSessionsGoOn(e: Env, ops: seq<Op>, payloadType: PayloadType, raw: bytes, iv: Block, peer: V20)
    requires After(e, ops).link.v20.state == Active
    ensures var w := After(e, ops); var v := w.link.v20;
      var r := GenSession20(e, v, payloadType, raw, iv).1;
      && (r.Ok? ==> r.value.header.sequence == (w.attempts + 1) % 0x1_0000_0000)
      && (UsesRc4(v) && peer.algs == v.algs && peer.k2 == v.k2 ==>
            && r.Ok?
            && (DecryptPayload(e.crypto, peer, r.value.payload).1 == Ok(raw) <==> w.rc4Bytes % 0x1_0000_0000 == 0))
  {
    hide After, Authenticated, AuthHmac, Marked, DecryptPayload, EncryptPayload, GenTrailer, PackHeader20;
    EveryRunIsSafe(e, ops);
    var v := After(e, ops).link.v20;
    var v1 := v.(sequence := (v.sequence + 1) % 0x1_0000_0000);
    if UsesRc4(v) && peer.algs == v.algs && peer.k2 == v.k2 {
      Rc4ReadsAtSizeZeroOnly(e.crypto, v1, peer, raw, iv);
      Rc4KeepsKeys(e.crypto, v1, raw, iv);
      var (v2, enc) := EncryptPayload(e.crypto, v1, raw, iv);
      var h := Header20(AUTH_TYPE_RMCP_PLUS, true, true, payloadType, 0, 0, v.bmcSessionID, v2.sequence,
                        |enc.value| % 0x1_0000);
      TrailerIsMade(e, v2, PackHeader20(h), enc.value);
    } else {
      EncryptKeepsSequence(e.crypto, v1, raw, iv);
    }
  }

  lemma Rc4KeepsKeys(c: Suite, v: V20, raw: bytes, iv: Block)
    requires UsesRc4(v) && KeysUsable(v)
    ensures var w := EncryptPayload(c, v, raw, iv).0;
      KeysUsable(w) && w.state == Active && w.sequence == v.sequence && w.bmcSessionID == v.bmcSessionID
  {}

  lemma EncryptKeepsSequence(c: Suite, v: V20, raw: bytes, iv: Block)
    ensures EncryptPayload(c, v, raw, iv).0.sequence == v.sequence
  {}

  // ----- one call of Connect20 -----

  /** The two requests around the suite loop, and how they were answered: the
      flags of the capabilities answer, None for an error, and whether the
      privilege level was set. */
  datatype Around = Around(capabilities: bytes, flags: Option<byte>, privilege: bytes, privilegeSet: bool,
                           iv1: Block, iv2: Block)

  /** Capabilities first, then the loop over the suites, then the privilege level. */
  function ConnectAround(e: Env, l: Link, best: seq<byte>, a: Around): (Link, bool)
  {
    var (v1, r1) := GenSession20(e, l.v20, PAYLOAD_IPMI, a.capabilities, a.iv1);
    var l1 := l.(v20 := v1);
    if !r1.Ok? || a.flags.None? then (l1, false)
    else
      var (l2, connected) := Handshake.Connect(e, l1, best);
      if !connected then (l2, false)
      else
        var (v3, r3) := GenSession20(e, l2.v20, PAYLOAD_IPMI, a.privilege, a.iv2);
        (l2.(v20 := v3), r3.Ok? && a.privilegeSet)
  }

  /** A successful call leaves an Active session with the evidence. */
  lemma ConnectAroundIsSafe(e: Env, l: Link, best: seq<byte>, a: Around)
    requires KeysUsable(l.v20)
    ensures var (l', success) := ConnectAround(e, l, best, a);
      && KeysUsable(l'.v20)
      && (success ==> l'.v20.state == Active && Authenticated(e, l'))
  {
    hide Authenticated, KeysUsable, GenSession20, TrySuites;
    PacketKeepsKeys(e, l.v20, PAYLOAD_IPMI, a.capabilities, a.iv1);
    var v1 := GenSession20(e, l.v20, PAYLOAD_IPMI, a.capabilities, a.iv1).0;
    var l1 := l.(v20 := v1);
    var ids := if v1.cipherSuiteID != CIPHER_SUITE_RESERVED then [v1.cipherSuiteID] else best;
    LoopIsSafe(e, l1, ids);
    ConnectKeepsKeysUsable(e, l1, ids);
    var l2 := Handshake.Connect(e, l1, best).0;
    PacketKeepsKeys(e, l2.v20, PAYLOAD_IPMI, a.privilege, a.iv2);
    SendKeepsEvidence(e, l2, PAYLOAD_IPMI, a.privilege, a.iv2);
  }

  // ----- from the handshake to the packets -----

  /** What a managed system knows of a session: its algorithms and keys. */
  function Peer(algs: Rakp.Algorithms, keys: Rakp.Keys): V20
  {
    NEW_SESSION.(algs := algs, sik := Some(keys.sik), k1 := Some(keys.k1), k2 := Some(keys.k2))
  }

  lemma PeerGoesByKeys(e: Env, v: V20, w: V20, datagram: bytes)
    requires w.algs == v.algs && w.k1 == v.k1 && w.k2 == v.k2 && v.algs.crypt in {CRYPT_NONE, AES_CBC_128}
    ensures PeerReceive(e, v, datagram) == PeerReceive(e, w, datagram)
  {
    hide UnpackRmcp, IntegrityHmac, CbcDecrypt, HasTrailer;
  }

  /** Connecting to a managed system that answers the suite in use to the
      specification, and then sending: with the keys it computed itself, the
      managed system accepts the packet and reads exactly the raw payload, if
      and only if the packet fits the 16-bit length field. */
  lemma ConnectedPeerReads(e: Env, b: Rakp.Bmc, l: Link, ids: seq<byte>, payloadType: PayloadType, raw: bytes, iv: Block)
    requires |e.username| < 0x100 && b.kuid == Rakp.Kuid(e.password) && b.kg == l.v20.bmcKey
    requires KeysUsable(l.v20) && TrySuites(e, l, ids).1
    requires var v := TrySuites(e, l, ids).0.v20;
      FollowsSpec(e, b, SuiteAlgorithms(v.cipherSuiteID)) && v.algs.crypt in {CRYPT_NONE, AES_CBC_128}
    ensures var l' := TrySuites(e, l, ids).0; var n := |l'.sent|;
      && n >= 3 && |l'.sent[n - 3].payload| == 32 && |l'.sent[n - 2].payload| >= 28
      && var keys := Rakp.BmcKeys(e.crypto, b, l'.sent[..n - 3], l'.sent[n - 3].payload, l'.sent[n - 2].payload);
      && var r := GenSession20(e, l'.v20, payloadType, raw, iv).1;
      && keys.Some? && r.Ok?
      && (PeerReceive(e, Peer(l'.v20.algs, keys.value), PackIpmi20(r.value)) == Some(raw) <==> Fits(l'.v20.algs.crypt, raw))
      && (l'.v20.bmcSessionID != 0 ==>
            Datagrams.IsSealed(e.crypto, l'.v20.algs.integrity, keys.value.k1, PackIpmi20(r.value)))
  {
    hide Datagrams.IsSealed, FollowsSpec, TrySuites, Authenticated, GenSession20, PeerReceive, PackIpmi20, Fits, Rakp.BmcKeys;
    var l' := TrySuites(e, l, ids).0;
    ConnectAgrees(e, b, l, ids);
    LoopIsSafe(e, l, ids);
    ConnectKeepsKeysUsable(e, l, ids);
    EndToEnd(e, l'.v20, payloadType, raw, iv);
    if l'.v20.bmcSessionID != 0 {
      Datagrams.PacketIsSealed(e, l'.v20, payloadType, raw, iv);
    }
    var n := |l'.sent|;
    var h := l'.sent[..n - 3];
    var keys := Rakp.BmcKeys(e.crypto, b, h, l'.sent[|h|].payload, l'.sent[|h| + 1].payload).value;
    var r := GenSession20(e, l'.v20, payloadType, raw, iv).1;
    PeerGoesByKeys(e, l'.v20, Peer(l'.v20.algs, keys), PackIpmi20(r.value));
  }
}
