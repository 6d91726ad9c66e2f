/** The client: its session fields, updated in place by the commands that
    establish sessions and by every packet it sends (client.go,
    interface_lan.go, cmd_open_session.go, cmd_rakp_message_1_2.go,
    cmd_rakp_message_3_4.go, client_auth_code.go, types_session.go). */
module Client {
  import opened Bytes
  import opened Crypto
  import opened Rakp
  import opened Handshake
  import opened Packets
  import opened SessionV15
  import opened IpmiMessage
  import opened Wire
  import CipherSuites
  import ClientRuns
  import Md2
  import Md2Digest

  // ----- request payloads, written into buffers -----

  /** Writes message tag 0 and a status code into a zeroed buffer. */
  method PackTagAndStatus(out: array<byte>, status: byte)
    requires out.Length >= 4 && forall k :: 0 <= k < out.Length ==> out[k] == 0
    modifies out
    ensures out[..4] == [0, status, 0, 0]
    ensures forall k :: 4 <= k < out.Length ==> out[k] == 0
  {
    ghost var before := out[..];
    PackUint8(0, out, 0);
    SpliceKeeps(before, 0, [0], out[..]);
    ghost var next := out[..];
    PackUint8(status, out, 1);
    SpliceKeeps(next, 1, [status], out[..]);
    assert out[..2] == [0, status];
    assert out[..4] == out[..2] + [out[2], out[3]];
  }

  method PackAlgorithmPayload(payloadType: byte, alg: byte) returns (msg: bytes)
    ensures msg == AlgorithmPayload(payloadType, alg)
  {
    hide Spliced;
    var out := new byte[8](_ => 0);
    ghost var zero: bytes := out[..];
    PackUint8(payloadType, out, 0);
    SpliceByte(zero, 0, payloadType, out[..]);
    ghost var typed: bytes := out[..];
    PackUint8(8, out, 3);
    SpliceByte(typed, 3, 8, out[..]);
    ghost var sized: bytes := out[..];
    PackUint8(alg, out, 4);
    SpliceByte(sized, 4, alg, out[..]);
    msg := out[..];
    assert typed == zero[0 := payloadType] && sized == typed[3 := 8] && msg == sized[4 := alg];
  }

  method PackOpenSessionRequest(consoleSessionID: uint32, a: Algorithms) returns (msg: bytes)
    ensures msg == OpenSessionRequest(consoleSessionID, a)
  {
    hide LE32, AlgorithmPayload;
    var out := new byte[32](_ => 0);
    PackTagAndStatus(out, 0x00);
    PackUint32L(consoleSessionID, out, 4);
    assert out[..8] == [0, 0, 0, 0] + LE32(consoleSessionID);
    var payload := PackAlgorithmPayload(0x00, a.auth);
    PackBytes(payload, out, 8);
    ghost var built := [0, 0, 0, 0] + LE32(consoleSessionID) + payload;
    assert out[..16] == built;
    payload := PackAlgorithmPayload(0x01, a.integrity);
    PackBytes(payload, out, 16);
    built := built + payload;
    assert out[..24] == built;
    payload := PackAlgorithmPayload(0x02, a.crypt);
    PackBytes(payload, out, 24);
    built := built + payload;
    assert out[..32] == built;
    msg := out[..];
    assert msg == out[..32];
  }

  /** The role byte and two reserved bytes behind it. */
  method PackRole(role: byte, out: array<byte>, off: nat)
    requires off + 3 <= out.Length && forall k :: off <= k < out.Length ==> out[k] == 0
    modifies out
    ensures out[..off + 3] == old(out[..off]) + [role, 0, 0]
  {
    ghost var before := out[..];
    PackUint8(role, out, off);
    SpliceKeeps(before, off, [role], out[..]);
    assert out[..off + 3] == out[..off + 1] + [out[off + 1], out[off + 2]];
  }

  /** The length of a name and the name. */
  method PackName(name: bytes, out: array<byte>, off: nat)
    requires off + 1 + |name| <= out.Length
    modifies out
    ensures out[..off + 1 + |name|] == old(out[..off]) + NameField(name)
  {
    hide Spliced;
    ghost var before: bytes := out[..];
    ghost var built: bytes, n := before[..off], [|name| % 0x100];
    PackUint8(|name| % 0x100, out, off);
    ghost var next: bytes := out[..];
    SpliceNext(before, off, n, next, built);
    PackBytes(name, out, off + 1);
    SpliceNext(next, off + 1, name, out[..], built + n);
  }

  method PackRakp1(bmcSessionID: uint32, consoleRand: Block, role: byte, username: bytes) returns (msg: bytes)
    ensures msg == Rakp1Message(bmcSessionID, consoleRand, role, username)
  {
    hide LE32;
    var n := 28 + |username|;
    var out := new byte[n](_ => 0);
    PackTagAndStatus(out, 0x00);
    ghost var before := out[..];
    PackUint32L(bmcSessionID, out, 4);
    SpliceKeeps(before, 4, LE32(bmcSessionID), out[..]);
    ghost var built := [0, 0, 0, 0] + LE32(bmcSessionID);
    assert out[..8] == built;
    before := out[..];
    PackBytes(consoleRand, out, 8);
    SpliceKeeps(before, 8, consoleRand, out[..]);
    built := built + consoleRand;
    assert out[..24] == built;
    PackRole(role, out, 24);
    built := built + [role, 0, 0];
    assert out[..27] == built;
    PackName(username, out, 27);
    assert out[..n] == built + NameField(username);
    msg := out[..];
    assert msg == out[..n];
  }

  method PackRakp3(status: byte, bmcSessionID: uint32, code: bytes) returns (msg: bytes)
    ensures msg == Rakp3Message(status, bmcSessionID, code)
  {
    hide LE32;
    var n := 8 + |code|;
    var out := new byte[n](_ => 0);
    PackTagAndStatus(out, status);
    PackUint32L(bmcSessionID, out, 4);
    ghost var built := [0, status, 0, 0] + LE32(bmcSessionID);
    assert out[..8] == built;
    PackBytes(code, out, 8);
    assert out[..n] == built + code;
    msg := out[..];
    assert msg == out[..n];
  }

  const IPMI_MAX_USER_NAME_LENGTH: nat := 16

  /** NewClient refuses empty and long user names and empty passwords. */
  method NewClient(e: Env) returns (r: Option<Client>)
    ensures r.Some? <==> 0 < |e.username| <= IPMI_MAX_USER_NAME_LENGTH && e.password != []
    ensures r.Some? ==> fresh(r.value) && r.value.env == e && r.value.Invariant() && r.value.v20.state == PreSession
  {
    if |e.username| > IPMI_MAX_USER_NAME_LENGTH || |e.username| == 0 || |e.password| == 0 {
      return None;
    }
    var c := new Client(e);
    r := Some(c);
  }

  class Client {
    const env: Env
    var authType: byte
    var ipmiSeq: byte
    var v15: V15
    var v20: V20

    /** Every session setup payload sent so far. */
    var sent: seq<Sent>

    /** Every v1.5 packet sent so far. */
    ghost var packets: seq<Session15>

    /** What every method keeps, in every order of calls. */
    ghost predicate Invariant()
      reads this
    {
      && KeysUsable(v20)
      && Sound(env.crypto, env.password, CurrentRun())
      && 1 <= ipmiSeq <= SEQUENCE_MAX
    }

    ghost function CurrentLink(): Link
      reads this
    {
      Link(v20, sent)
    }

    ghost function CurrentRun(): Run
      reads this
    {
      Run(authType, v15, packets)
    }

    constructor (e: Env)
      ensures env == e && Invariant()
      ensures v20 == NEW_SESSION && v15 == NEW_V15 && ipmiSeq == 1 && sent == []
      ensures CurrentRun() == Runs(e.crypto, e.password, [])
    {
      env, authType, ipmiSeq, v15, v20, sent := e, AUTH_TYPE_NONE, 1, NEW_V15, NEW_SESSION, [];
      packets := [];
    }

    // ----- keys and codes -----

    method SikBuffer() returns (input: bytes)
      ensures input == SikData(v20.consoleRand, v20.bmcRand, v20.role, env.username)
    {
      hide Spliced;
      var name := env.username;
      var n := 34 + |name|;
      var buffer := new byte[n](_ => 0);
      ghost var b0: bytes := buffer[..];
      PackBytes(v20.consoleRand, buffer, 0);
      ghost var b1: bytes, built1: bytes := buffer[..], v20.consoleRand;
      assert [] + built1 == built1;
      SpliceNext(b0, 0, built1, b1, []);
      PackBytes(v20.bmcRand, buffer, 16);
      ghost var b2: bytes, built2 := buffer[..], built1 + v20.bmcRand;
      SpliceNext(b1, 16, v20.bmcRand, b2, built1);
      PackUint8(v20.role, buffer, 32);
      ghost var b3: bytes, built3 := buffer[..], built2 + [v20.role];
      SpliceNext(b2, 32, [v20.role], b3, built2);
      PackName(name, buffer, 33);
      input := buffer[..];
      assert input == input[..n] == built3 + NameField(name);
    }

    method GenerateSik() returns (sik: Option<bytes>)
      ensures sik == AuthHmac(env.crypto, v20.algs.auth, SikData(v20.consoleRand, v20.bmcRand, v20.role, env.username),
                              SikKey(v20.bmcKey, Kuid(env.password)))
    {
      var input := SikBuffer();
      var hmacKey := v20.bmcKey;
      if |v20.bmcKey| == 0 {
        hmacKey := PadBytes(env.password, 20, 0x00);
      }
      sik := AuthHmac(env.crypto, v20.algs.auth, input, hmacKey);
    }

    method GenerateK1() returns (k: Option<bytes>)
      ensures k == if v20.sik.None? then None else AuthHmac(env.crypto, v20.algs.auth, CONST_1, v20.sik.value)
      ensures forall data, key ::
        var keys := DeriveKeys(env.crypto, v20.algs.auth, data, key);
        keys.Some? && v20.sik == Some(keys.value.sik) ==> k == Some(keys.value.k1)
    {
      if v20.sik.None? {
        return None;
      }
      k := AuthHmac(env.crypto, v20.algs.auth, CONST_1, v20.sik.value);
    }

    method GenerateK2() returns (k: Option<bytes>)
      ensures k == if v20.sik.None? then None else AuthHmac(env.crypto, v20.algs.auth, CONST_2, v20.sik.value)
      ensures forall data, key ::
        var keys := DeriveKeys(env.crypto, v20.algs.auth, data, key);
        keys.Some? && v20.sik == Some(keys.value.sik) ==> k == Some(keys.value.k2)
    {
      if v20.sik.None? {
        return None;
      }
      k := AuthHmac(env.crypto, v20.algs.auth, CONST_2, v20.sik.value);
    }

    /** Both session ids, both random numbers and the GUID. */
    method Rakp2Buffer(buffer: array<byte>)
      requires buffer.Length >= 56
      modifies buffer
      ensures buffer[..56] == LE32(v20.consoleSessionID) + LE32(v20.bmcSessionID) + v20.consoleRand + v20.bmcRand + v20.bmcGUID
    {
      hide Spliced, LE32;
      ghost var b0: bytes := buffer[..];
      PackUint32L(v20.consoleSessionID, buffer, 0);
      ghost var b1: bytes, built1 := buffer[..], LE32(v20.consoleSessionID);
      assert [] + built1 == built1;
      SpliceNext(b0, 0, built1, b1, []);
      PackUint32L(v20.bmcSessionID, buffer, 4);
      ghost var b2: bytes, built2 := buffer[..], built1 + LE32(v20.bmcSessionID);
      SpliceNext(b1, 4, LE32(v20.bmcSessionID), b2, built1);
      PackBytes(v20.consoleRand, buffer, 8);
      ghost var b3: bytes, built3 := buffer[..], built2 + v20.consoleRand;
      SpliceNext(b2, 8, v20.consoleRand, b3, built2);
      PackBytes(v20.bmcRand, buffer, 24);
      ghost var b4: bytes, built4 := buffer[..], built3 + v20.bmcRand;
      SpliceNext(b3, 24, v20.bmcRand, b4, built3);
      PackBytes(v20.bmcGUID, buffer, 40);
      SpliceNext(b4, 40, v20.bmcGUID, buffer[..], built4);
    }

    method GenerateRakp2AuthCode() returns (code: Option<bytes>)
      ensures code == Rakp2Code(env, v20)
    {
      hide Spliced, LE32;
      var name := env.username;
      var n := 58 + |name|;
      var buffer := new byte[n](_ => 0);
      Rakp2Buffer(buffer);
      ghost var b0: bytes := buffer[..];
      ghost var built := b0[..56];
      PackUint8(v20.role, buffer, 56);
      ghost var b1: bytes, built1 := buffer[..], built + [v20.role];
      SpliceNext(b0, 56, [v20.role], b1, built);
      PackName(name, buffer, 57);
      var input: bytes := buffer[..];
      assert input == input[..n] == built1 + NameField(name);
      var hmacKey := PadBytes(env.password, 20, 0x00);
      code := AuthHmac(env.crypto, v20.algs.auth, input, hmacKey);
    }

    method GenerateRakp3AuthCode() returns (code: Option<bytes>)
      ensures code == Rakp3Code(env, v20)
    {
      hide LE32;
      var input: bytes := [];
      input := input + v20.bmcRand;
      var buffer := new byte[4](_ => 0);
      PackUint32L(v20.consoleSessionID, buffer, 0);
      assert buffer[..] == buffer[..4] == LE32(v20.consoleSessionID);
      input := input + buffer[..];
      input := input + [v20.role];
      ghost var built := input;
      input := input + [|env.username| % 0x100];
      input := input + env.username;
      assert input == built + NameField(env.username);
      assert input == Rakp3Data(v20.bmcRand, v20.consoleSessionID, v20.role, env.username);
      var hmacKey := PadBytes(env.password, 20, 0x00);
      code := AuthHmac(env.crypto, v20.algs.auth, input, hmacKey);
    }

    method GenerateRakp4AuthCode() returns (code: Option<bytes>)
      requires v20.sik.Some?
      ensures code == Rakp4Code(env, v20)
    {
      var input: bytes := [];
      input := input + v20.consoleRand;
      var buffer := new byte[4](_ => 0);
      PackUint32L(v20.bmcSessionID, buffer, 0);
      assert buffer[..] == buffer[..4] == LE32(v20.bmcSessionID);
      input := input + buffer[..];
      input := input + v20.bmcGUID;
      assert input == Rakp4Data(v20.consoleRand, v20.bmcSessionID, v20.bmcGUID);
      var b := IntegrityHmac(env.crypto, v20.algs.integrity, input, v20.sik.value);
      if b.None? {
        return None;
      }
      code := Some(if v20.algs.integrity == HMAC_SHA1_96 then b.value[..12] else b.value[..16]);
    }

    // ----- the handshake -----

    method OpenSession() returns (ok: bool)
      modifies `v20, `sent
      ensures (CurrentLink(), ok) == Handshake.OpenSession(env, old(CurrentLink()))
      ensures v20.state != Active
      ensures old(Invariant()) ==> Invariant()
    {
      var algs := SuiteAlgorithms(v20.cipherSuiteID);
      v20 := v20.(requested := algs);
      var request := PackOpenSessionRequest(CONSOLE_SESSION_ID, v20.requested);
      v20 := v20.(state := OpenSessionSent);
      sent := sent + [Sent(OPEN_SESSION_REQUEST, request)];
      var response := OpenReply(env.receive(sent));
      if response.None? {
        return false;
      }
      var res := response.value;
      if res.status != NO_ERRORS {
        return false;
      }
      v20 := v20.(state := OpenSessionReceived);
      v20 := v20.(algs := res.algs);
      v20 := v20.(consoleSessionID := res.consoleSessionID);
      v20 := v20.(bmcSessionID := res.bmcSessionID);
      ok := true;
    }

    method ValidateRakp2(res: Rakp2Response) returns (ok: bool)
      ensures ok <==> ValidRakp2(env, v20, res)
    {
      if v20.consoleSessionID != res.consoleSessionID {
        return false;
      }
      var code := GenerateRakp2AuthCode();
      if code.None? {
        return false;
      }
      ok := IsByteSliceEqual(code, res.code);
    }

    method RAKPMessage1() returns (ok: bool)
      modifies `v20, `sent
      ensures (CurrentLink(), ok) == Handshake.Rakp1(env, old(CurrentLink()))
      ensures v20.state != Active
      ensures old(Invariant()) ==> Invariant()
    {
      v20 := v20.(consoleRand := env.random(|sent|));
      v20 := v20.(role := Role(env.maxPrivilege));
      var request := PackRakp1(v20.bmcSessionID, v20.consoleRand, v20.role, env.username);
      v20 := v20.(state := Rakp1Sent);
      sent := sent + [Sent(RAKP_MESSAGE_1, request)];
      var response := Rakp2Reply(env.receive(sent), v20.algs.auth);
      if response.None? {
        return false;
      }
      var res := response.value;
      v20 := v20.(rakp2ReturnCode := res.status);
      v20 := v20.(bmcGUID := res.bmcGUID);
      v20 := v20.(bmcRand := res.bmcRand);
      ok := ValidateRakp2(res);
      if ok {
        v20 := v20.(state := Rakp2Received);
      }
    }

    method ValidateRakp4(res: Rakp4Response) returns (ok: bool)
      requires v20.sik.Some?
      ensures ok <==> ValidRakp4(env, v20, res)
    {
      if res.status != NO_ERRORS {
        return false;
      }
      if v20.consoleSessionID != res.consoleSessionID {
        return false;
      }
      var code := GenerateRakp4AuthCode();
      if code.None? {
        return false;
      }
      ok := IsByteSliceEqual(res.checkValue, code);
    }

    /** The only way to an Active session. */
    method RAKPMessage3() returns (ok: bool)
      modifies `v20, `sent
      ensures (CurrentLink(), ok) == Handshake.Rakp3(env, old(CurrentLink()))
      ensures old(Invariant()) ==> Invariant()
    {
      hide KeysUsable, Sound, AuthHmac, ValidRakp4, Rakp4Reply, Rakp3Message, SikData, Kuid;
      ghost var l := CurrentLink();
      if KeysUsable(l.v20) {
        ExchangesKeepKeysUsable(env, l);
      }
      var sik := GenerateSik();
      if sik.None? {
        return false;
      }
      v20 := v20.(sik := sik);
      var k1 := GenerateK1();
      v20 := v20.(k1 := k1);
      var k2 := GenerateK2();
      v20 := v20.(k2 := k2);
      var code := GenerateRakp3AuthCode();
      var request := PackRakp3(v20.rakp2ReturnCode, v20.bmcSessionID, code.value);
      v20 := v20.(state := Rakp3Sent);
      sent := sent + [Sent(RAKP_MESSAGE_3, request)];
      var response := Rakp4Reply(env.receive(sent), v20.algs.auth);
      ok := false;
      if response.Some? {
        ok := ValidateRakp4(response.value);
        if ok {
          v20 := v20.(state := Active);
        }
      }
    }

    /** The loop over the user's suite or else the given ones. */
    method TryCipherSuites(best: seq<byte>) returns (success: bool)
      requires Invariant()
      modifies `v20, `sent
      ensures (CurrentLink(), success) == Handshake.Connect(env, old(CurrentLink()), best)
      ensures Invariant()
      ensures success ==> v20.state == Active && Authenticated(env, CurrentLink())
    {
      hide KeysUsable, Sound, Authenticated;
      hide Handshake.OpenSession, Handshake.Rakp1, Handshake.Rakp3, SuiteAlgorithms;
      var tryCiphers := best;
      if v20.cipherSuiteID != CIPHER_SUITE_RESERVED {
        tryCiphers := [v20.cipherSuiteID];
      }
      ghost var before := CurrentLink();
      LoopIsSafe(env, before, tryCiphers);
      ConnectKeepsKeysUsable(env, before, tryCiphers);
      success := false;
      var i := 0;
      while i < |tryCiphers| && !success
        invariant 0 <= i <= |tryCiphers|
        invariant TrySuites(env, before, tryCiphers)
                  == if success then (CurrentLink(), true) else TrySuites(env, CurrentLink(), tryCiphers[i..])
      {
        ghost var rest := tryCiphers[i..];
        assert rest[0] == tryCiphers[i] && rest[1..] == tryCiphers[i + 1..];
        v20 := v20.(cipherSuiteID := tryCiphers[i]);
        i := i + 1;
        var ok := OpenSession();
        if !ok {
          continue;
        }
        ok := RAKPMessage1();
        if !ok {
          continue;
        }
        ok := RAKPMessage3();
        if !ok {
          continue;
        }
        success := true;
      }
    }

    /** Capabilities, discovery, the loop and the privilege level. */
    method Connect20(pages: CipherSuites.Pages, around: ClientRuns.Around) returns (success: bool)
      requires Invariant()
      modifies `authType, `v20, `sent
      ensures (CurrentLink(), success)
        == ClientRuns.ConnectAround(env, old(CurrentLink()), CipherSuites.BestSuites(pages), around)
      ensures authType == if around.flags.Some? && CapabilitiesSent(old(v20), around) then ChosenAuthType(around.flags.value)
                          else old(authType)
      ensures Invariant()
      ensures success ==> v20.state == Active && Authenticated(env, CurrentLink())
    {
      hide KeysUsable, Sound, Authenticated, CipherSuites.BestSuites, Handshake.Connect, Packets.GenSession20;
      ghost var best := CipherSuites.BestSuites(pages);
      ClientRuns.ConnectAroundIsSafe(env, CurrentLink(), best, around);
      var packet := GenSession20(PAYLOAD_IPMI, around.capabilities, around.iv1);
      if !packet.Ok? || around.flags.None? {
        return false;
      }
      ChooseAuthType(around.flags.value);
      var tryCiphers := CipherSuites.FindBestCipherSuites(pages);
      success := TryCipherSuites(tryCiphers);
      if !success {
        return;
      }
      packet := GenSession20(PAYLOAD_IPMI, around.privilege, around.iv2);
      success := packet.Ok? && around.privilegeSet;
    }

    ghost predicate CapabilitiesSent(v: V20, around: ClientRuns.Around)
    {
      Packets.GenSession20(env, v, PAYLOAD_IPMI, around.capabilities, around.iv1).1.Ok?
    }

    /** MD2 before MD5 before password before OEM. */
    method ChooseAuthType(flags: byte)
      modifies `authType
      ensures authType == ChosenAuthType(flags)
      ensures old(Invariant()) ==> Invariant()
    {
      hide KeysUsable, Consistent;
      if flags / 2 % 2 == 1 {
        authType := AUTH_TYPE_MD2;
      } else if flags / 4 % 2 == 1 {
        authType := AUTH_TYPE_MD5;
      } else if flags / 16 % 2 == 1 {
        authType := AUTH_TYPE_PASSWORD;
      } else if flags / 32 % 2 == 1 {
        authType := AUTH_TYPE_OEM;
      } else {
        authType := AUTH_TYPE_NONE;
      }
    }

    // ----- v2.0 packets -----

    method GenIntegrityAuthCode(input: bytes) returns (r: Outcome<bytes>)
      ensures r == IntegrityCode(env, v20, input)
    {
      var alg := v20.algs.integrity;
      if alg == INTEGRITY_NONE {
        return Ok([]);
      }
      if alg == MD5_128 {
        var data: bytes := [];
        data := data + env.password;
        data := data + input;
        data := data + env.password;
        assert data == env.password + input + env.password;
        return Ok(env.crypto.md5(data));
      }
      var key := if v20.k1.Some? then v20.k1.value else [];
      if alg == HMAC_MD5_128 {
        r := Ok(env.crypto.hmacMd5(input, key)[..16]);
      } else if alg == HMAC_SHA1_96 {
        r := Ok(env.crypto.hmacSha1(input, key)[..12]);
      } else if alg == HMAC_SHA256_128 {
        r := Ok(env.crypto.hmacSha256(input, key)[..16]);
      } else {
        r := Err;
      }
    }

    method GenSessionTrailer(header: bytes, payload: bytes) returns (r: Outcome<SessionTrailer>)
      ensures match GenTrailer(env, v20, header, payload)
        case Ok(t) => r.Ok? && fresh(r.value) && r.value.Value() == t
        case Err => r == Err
        case Panic => r == Panic
    {
      hide IntegrityCode;
      var padSize := TrailerPadLength(|header|, |payload|);
      var pad := new byte[padSize](_ => 0);
      for i := 0 to padSize
        invariant forall k :: 0 <= k < i ==> pad[k] == 0xff
      {
        pad[i] := 0xff;
      }
      assert pad[..] == Fill(0xff, padSize);
      var trailer := new SessionTrailer(pad[..], padSize, NEXT_HEADER);
      var input := header;
      input := input + payload;
      input := input + trailer.integrityPad;
      input := input + [trailer.padLength];
      input := input + [trailer.nextHeader];
      assert input == Covered(header, payload);
      var code := GenIntegrityAuthCode(input);
      match code
      case Err => r := Err;
      case Panic => r := Panic;
      case Ok(authCode) =>
        trailer.authCode := authCode;
        r := Ok(trailer);
    }

    method PadForAes(raw: bytes) returns (padded: bytes)
      ensures padded == AesPadded(raw)
    {
      padded := raw;
      var mod := (|raw| + 1) % 16;
      var padLength := if mod > 0 then 16 - mod else 0;
      for i := 0 to padLength
        invariant padded == raw + AesPad(padLength)[..i]
      {
        padded := padded + [i + 1];
      }
      padded := padded + [padLength];
    }

    method GenRc4Key(iv: Block) returns (cipherKey: bytes)
      requires v20.algs.crypt in {XRC4_40, XRC4_128}
      ensures cipherKey == Rc4Key(v20, iv)
    {
      var keyRC := (if v20.k2.Some? then v20.k2.value else []) + iv;
      cipherKey := if v20.algs.crypt == XRC4_40 then keyRC[..5] else keyRC[..16];
    }

    method EncryptPayload(raw: bytes, iv: Block) returns (r: Outcome<bytes>)
      modifies `v20
      ensures (v20, r) == Packets.EncryptPayload(env.crypto, old(v20), raw, iv)
    {
      if v20.algs.crypt == CRYPT_NONE {
        return Ok(raw);
      }
      if v20.algs.crypt == AES_CBC_128 {
        var padded := PadForAes(raw);
        if v20.k2.None? || |v20.k2.value| < 16 {
          return Panic;
        }
        return Ok(iv + CbcEncrypt(env.crypto, v20.k2.value[..16], iv, padded));
      }
      if v20.algs.crypt != XRC4_40 && v20.algs.crypt != XRC4_128 {
        return Err;
      }
      var header := BE32(v20.accumulatedPayloadSize);
      assert header + [] == header;
      if v20.accumulatedPayloadSize == 0 {
        v20 := v20.(rc4EncryptIV := iv);
        header := header + v20.rc4EncryptIV;
      }
      v20 := v20.(accumulatedPayloadSize := (v20.accumulatedPayloadSize + |raw|) % 0x1_0000_0000);
      var key := GenRc4Key(v20.rc4EncryptIV);
      r := Ok(header + env.crypto.rc4(key, raw));
    }

    method DecryptPayload(data: bytes) returns (r: Outcome<bytes>)
      modifies `v20
      ensures (v20, r) == Packets.DecryptPayload(env.crypto, old(v20), data)
    {
      if v20.algs.crypt == CRYPT_NONE {
        return Ok(data);
      }
      if v20.algs.crypt == AES_CBC_128 {
        if |data| <= 16 || |data| % 16 != 0 || v20.k2.None? || |v20.k2.value| < 16 {
          return Panic;
        }
        var d := CbcDecrypt(env.crypto, v20.k2.value[..16], data[..16], data[16..]);
        var dEnd := |d| - d[|d| - 1] as int - 1;
        if dEnd < 0 {
          return Panic;
        }
        return Ok(d[..dEnd]);
      }
      if v20.algs.crypt != XRC4_40 && v20.algs.crypt != XRC4_128 {
        return Err;
      }
      if |data| < 20 {
        return Panic;
      }
      if data[..4] == [0, 0, 0, 0] {
        v20 := v20.(rc4DecryptIV := data[4..20]);
      }
      var key := GenRc4Key(v20.rc4DecryptIV);
      r := Ok(env.crypto.rc4(key, data[20..]));
    }

    /** Fills in the length, and makes the trailer unless the session id is 0. */
    method FinishSession20(header: SessionHeader20, payload: bytes) returns (r: Outcome<SessionPacket20>)
      modifies header`payloadLength
      ensures header.Value() == old(header.Value()).(payloadLength := |payload| % 0x1_0000)
      ensures match Finish20(env, v20, header.Value(), payload)
        case Ok(s) => r.Ok? && fresh(r.value) && r.value.header == header && r.value.Value() == s
        case Err => r == Err
        case Panic => r == Panic
    {
      hide GenTrailer, PackHeader20;
      header.payloadLength := |payload| % 0x1_0000;
      var headerBytes := header.Pack();
      var trailer: SessionTrailer? := null;
      if header.payloadAuthenticated && header.sessionID != 0 {
        var t := GenSessionTrailer(headerBytes, payload);
        match t {
          case Err => return Err;
          case Panic => return Panic;
          case Ok(made) => trailer := made;
        }
      }
      var packet := new SessionPacket20(header, payload, trailer);
      r := Ok(packet);
    }

    /** The packet of the next request, and the session behind it. */
    method GenSession20(payloadType: PayloadType, raw: bytes, iv: Block) returns (r: Outcome<SessionPacket20>)
      modifies `v20
      ensures v20 == Packets.GenSession20(env, old(v20), payloadType, raw, iv).0
      ensures match Packets.GenSession20(env, old(v20), payloadType, raw, iv).1
        case Ok(s) => r.Ok? && fresh(r.value) && r.value.Value() == s
        case Err => r == Err
        case Panic => r == Panic
      ensures old(Invariant()) ==> Invariant()
    {
      hide Packets.EncryptPayload, Finish20, KeysUsable, Sound;
      PacketKeepsKeys(env, v20, payloadType, raw, iv);
      var header := new SessionHeader20(AUTH_TYPE_RMCP_PLUS, payloadType);
      var active := v20.state == Active;
      if active {
        header.payloadAuthenticated := true;
        header.payloadEncrypted := true;
        header.sessionID := v20.bmcSessionID;
        v20 := v20.(sequence := (v20.sequence + 1) % 0x1_0000_0000);
        header.sequence := v20.sequence;
      }
      var payload := raw;
      if active {
        EncryptKeeps(env.crypto, v20, raw, iv);
        var enc := EncryptPayload(raw, iv);
        match enc {
          case Err => return Err;
          case Panic => return Panic;
          case Ok(p) => payload := p;
        }
      }
      r := FinishSession20(header, payload);
    }

    // ----- requests -----

    /** An IPMI request carries the counter's value, and the counter moves on. */
    method BuildIPMIRequest(netFn: NetFn, command: byte, data: bytes) returns (request: IpmiRequest)
      modifies `ipmiSeq
      ensures fresh(request)
      ensures request.fields == Fields(0x20, netFn, 0, 0x81, old(ipmiSeq), 0, command, data)
      ensures PackRequest(request.fields, request.checksum1, request.checksum2) == Sealed(request.fields)
      ensures ipmiSeq == NextIpmiSeq(old(ipmiSeq))
      ensures old(Invariant()) ==> Invariant()
    {
      request := new IpmiRequest(Fields(BMC_SA, netFn, 0, REMOTE_CONSOLE_SWID, ipmiSeq, 0, command, data));
      ipmiSeq := (ipmiSeq + 1) % 0x100;
      if ipmiSeq > SEQUENCE_MAX {
        ipmiSeq := 1;
      }
      request.ComputeChecksum();
    }

    // ----- v1.5 packets and activation -----

    method AuthCode15(input: bytes) returns (code: Outcome<Block>)
      requires |input| >= 16
      ensures code == AuthCode(env.crypto, authType, env.password, input)
    {
      hide Md2.RfcDigest;
      var password := PadBytes(env.password, 16, 0x00);
      if authType == AUTH_TYPE_PASSWORD {
        code := Ok(password);
      } else if authType == AUTH_TYPE_MD2 {
        var digest := new Md2Digest.Digest(Md2.PI_SUBST);
        var sum := digest.Sum(input);
        code := Ok(sum[..16]);
      } else if authType == AUTH_TYPE_MD5 {
        code := Ok(env.crypto.md5(input));
      } else {
        code := Panic;
      }
    }

    method MultiSessionBuffer(data: bytes) returns (input: bytes)
      ensures input == MultiSessionInput(env.password, v15.sessionID, data, v15.inSeq)
    {
      hide LE32, Padded;
      var password := PadBytes(env.password, 16, 0x00);
      var n, m := 20 + |data|, 20 + |data| + 4 + 16;
      var buffer := new byte[m](_ => 0);
      PackBytes(password, buffer, 0);
      ghost var built: bytes := password;
      assert buffer[..16] == built;
      PackUint32L(v15.sessionID, buffer, 16);
      built := built + LE32(v15.sessionID);
      assert buffer[..20] == built;
      PackBytes(data, buffer, 20);
      built := built + data;
      assert buffer[..n] == built;
      PackUint32L(v15.inSeq, buffer, n);
      built := built + LE32(v15.inSeq);
      assert buffer[..n + 4] == built;
      PackBytes(password, buffer, n + 4);
      assert buffer[..m] == built + password;
      input := buffer[..];
      assert input == buffer[..m];
    }

    method GenAuthCodeForMultiSession(data: bytes) returns (code: Outcome<Block>)
      ensures code == AuthCode(env.crypto, authType, env.password,
                               MultiSessionInput(env.password, v15.sessionID, data, v15.inSeq))
    {
      hide AuthCode;
      var input := MultiSessionBuffer(data);
      code := AuthCode15(input);
    }

    /** The v1.5 packet of the next request, one step of the session's run. */
    method GenSession15(raw: bytes) returns (r: Outcome<SessionPacket15>)
      modifies `v15, `packets
      ensures CurrentRun() == Step(env.crypto, env.password, old(CurrentRun()), Send(raw))
      ensures r.Ok? <==> CanSend(old(CurrentRun()))
      ensures match SessionV15.GenSession15(env.crypto, env.password, authType, old(v15), raw).1
        case Ok(s) => r.Ok? && fresh(r.value) && r.value.Value() == s
        case Err => r == Err
        case Panic => r == Panic
      ensures old(Invariant()) ==> Invariant()
    {
      hide AuthCode, MultiSessionInput, KeysUsable, Sound;
      SendableIffCode(env.crypto, env.password, CurrentRun(), raw);
      if Sound(env.crypto, env.password, CurrentRun()) {
        StepIsSound(env.crypto, env.password, CurrentRun(), Send(raw));
      }
      var header := new SessionHeader15(AUTH_TYPE_NONE, |raw| % 0x100);
      if v15.preSession || v15.active {
        header.authType := authType;
        header.sessionID := v15.sessionID;
      }
      if v15.active {
        v15 := v15.(inSeq := (v15.inSeq + 1) % 0x1_0000_0000);
        header.sequence := v15.inSeq;
      }
      if header.authType != AUTH_TYPE_NONE {
        var code := GenAuthCodeForMultiSession(raw);
        match code {
          case Err => return Err;
          case Panic => return Panic;
          case Ok(authCode) => header.authCode := authCode;
        }
      }
      var packet := new SessionPacket15(header, raw);
      r := Ok(packet);
      packets := packets + [packet.Value()];
    }

    /** `answer` is what the exchange returned, None for an error. */
    method GetSessionChallenge(request: bytes, answer: Option<(uint32, Block)>) returns (ok: bool)
      modifies `v15, `packets
      ensures var sentRun := Step(env.crypto, env.password, old(CurrentRun()), Send(request));
        CurrentRun() == if ok && answer.Some? then Step(env.crypto, env.password, sentRun, ChallengeAnswered(answer.value.0, answer.value.1))
                        else sentRun
      ensures ok <==> answer.Some? && CanSend(old(CurrentRun()))
      ensures ok ==> v15.sessionID == answer.value.0 && v15.challenge == answer.value.1
      ensures old(Invariant()) ==> Invariant()
    {
      hide SessionV15.GenSession15, KeysUsable, Sound;
      ghost var before := CurrentRun();
      if Sound(env.crypto, env.password, before) {
        var sentRun := Step(env.crypto, env.password, before, Send(request));
        StepIsSound(env.crypto, env.password, before, Send(request));
        if answer.Some? {
          StepIsSound(env.crypto, env.password, sentRun, ChallengeAnswered(answer.value.0, answer.value.1));
        }
      }
      var packet := GenSession15(request);
      if !packet.Ok? || answer.None? {
        return false;
      }
      v15 := v15.(sessionID := answer.value.0);
      v15 := v15.(challenge := answer.value.1);
      ok := true;
    }

    method ActivateSession(request: bytes, outSeq: uint32, answer: Option<(uint32, uint32)>) returns (ok: bool)
      modifies `v15, `packets
      ensures var sentRun := Step(env.crypto, env.password,
                                  Step(env.crypto, env.password, old(CurrentRun()), ActivateSent(outSeq)), Send(request));
        CurrentRun() == if ok && answer.Some? then Step(env.crypto, env.password, sentRun, ActivateAnswered(answer.value.0, answer.value.1))
                        else sentRun
      ensures ok <==> answer.Some? && CanSend(old(CurrentRun()))
      ensures ok ==> v15.active && !v15.preSession && v15.sessionID == answer.value.0 && v15.inSeq == answer.value.1
      ensures old(Invariant()) ==> Invariant()
    {
      hide SessionV15.GenSession15, KeysUsable, Sound;
      ghost var before := CurrentRun();
      if Sound(env.crypto, env.password, before) {
        var begun := Step(env.crypto, env.password, before, ActivateSent(outSeq));
        StepIsSound(env.crypto, env.password, before, ActivateSent(outSeq));
        StepIsSound(env.crypto, env.password, begun, Send(request));
        if answer.Some? {
          StepIsSound(env.crypto, env.password, Step(env.crypto, env.password, begun, Send(request)),
                      ActivateAnswered(answer.value.0, answer.value.1));
        }
      }
      v15 := v15.(outSeq := outSeq);
      var packet := GenSession15(request);
      if !packet.Ok? || answer.None? {
        return false;
      }
      v15 := v15.(active := true);
      v15 := v15.(preSession := false);
      v15 := v15.(sessionID := answer.value.0);
      v15 := v15.(inSeq := answer.value.1);
      ok := true;
    }

    /** `answer` is the data of the answer, None for an error; it takes eight
        bytes to unpack. */
    method GetChannelAuthenticationCapabilities(request: bytes, answer: Option<bytes>) returns (ok: bool)
      modifies `authType, `v15, `packets
      ensures var sentRun := Step(env.crypto, env.password, old(CurrentRun()), Send(request));
        CurrentRun() == if ok && Flags(answer).Some?
                        then Step(env.crypto, env.password, sentRun, SessionV15.ChooseAuthType(ChosenAuthType(Flags(answer).value)))
                        else sentRun
      ensures ok <==> Flags(answer).Some? && CanSend(old(CurrentRun()))
      ensures old(Invariant()) ==> Invariant()
    {
      hide SessionV15.GenSession15, KeysUsable, Consistent;
      var packet := GenSession15(request);
      if !packet.Ok? || answer.None? || |answer.value| < 8 {
        return false;
      }
      ChooseAuthType(answer.value[1]);
      ok := true;
    }

    /** The last two exchanges of Connect15: activation and privilege level. */
    method ActivateWithPrivilege(request: bytes, privilege: bytes, login: Login) returns (success: bool)
      requires Invariant() && v15.preSession
      modifies `v15, `packets
      ensures Invariant()
      ensures success <==> CanSend(old(CurrentRun())) && login.activation.Some? && login.privilegeSet
      ensures success ==>
        && v15.active && !v15.preSession && v15.sessionID == login.activation.value.0
        && v15.inSeq == (login.activation.value.1 + 1) % 0x1_0000_0000
    {
      hide SessionV15.GenSession15, KeysUsable, Sound;
      ghost var c, password := env.crypto, env.password;
      SendKeepsFields(c, password, CurrentRun().(v := v15.(outSeq := login.outSeq)), request);
      var ok := ActivateSession(request, login.outSeq, login.activation);
      if !ok {
        return false;
      }
      SendKeepsFields(c, password, CurrentRun(), privilege);
      var packet := GenSession15(privilege);
      success := packet.Ok? && login.privilegeSet;
    }

    /** The exchanges of Connect15 with arbitrary request payloads, in whatever
        session there was before. It succeeds exactly when every exchange is
        answered, the first one can be sent, and OEM is not the only supported
        authentication type. The session is then active under the id of the
        activation, one packet past its initial number. */
    method Connect15(requests: (bytes, bytes, bytes, bytes), login: Login) returns (success: bool)
      requires Invariant()
      modifies `authType, `v15, `packets
      ensures Invariant()
      ensures success <==>
        && CanSend(old(CurrentRun()))
        && Flags(login.capabilities).Some? && login.challenge.Some? && login.activation.Some? && login.privilegeSet
        && !OnlyOem(Flags(login.capabilities).value)
      ensures success ==>
        && v15.active && !v15.preSession && authType == ChosenAuthType(Flags(login.capabilities).value)
        && v15.sessionID == login.activation.value.0 && v15.inSeq == (login.activation.value.1 + 1) % 0x1_0000_0000
    {
      hide SessionV15.GenSession15, KeysUsable, Sound, ChosenAuthType, OnlyOem, Flags;
      ghost var c, password := env.crypto, env.password;
      ghost var start := CurrentRun();
      SendKeepsFields(c, password, start, requests.0);
      if Flags(login.capabilities).Some? {
        ChosenTypeCanSend(Flags(login.capabilities).value);
      }
      var ok := GetChannelAuthenticationCapabilities(requests.0, login.capabilities);
      if !ok {
        return false;
      }
      SendKeepsFields(c, password, CurrentRun(), requests.1);
      ok := GetSessionChallenge(requests.1, login.challenge);
      if !ok {
        return false;
      }
      EnterIsSound(c, password, CurrentRun());
      v15 := v15.(preSession := true);
      success := ActivateWithPrivilege(requests.2, requests.3, login);
    }
  }

  /** The answers during Connect15, None or false for an error, and the random
      number it picks. */
  datatype Login = Login(capabilities: Option<bytes>, challenge: Option<(uint32, Block)>, outSeq: uint32,
                         activation: Option<(uint32, uint32)>, privilegeSet: bool)

  lemma EncryptKeeps(c: Suite, v: V20, raw: bytes, iv: Block)
    ensures var w := Packets.EncryptPayload(c, v, raw, iv).0;
      w.state == v.state && w.bmcSessionID == v.bmcSessionID && w.sequence == v.sequence
  {}

  /** The second byte of a capabilities answer that unpacks. */
  function Flags(answer: Option<bytes>): Option<byte>
  {
    if answer.None? || |answer.value| < 8 then None else Some(answer.value[1])
  }

  /** A send changes only the inbound number, and only of an active session. */
  lemma SendKeepsFields(c: Suite, password: bytes, r: Run, raw: bytes)
    ensures var t := Step(c, password, r, Send(raw));
      && t.authType == r.authType
      && t.v == if r.v.active then r.v.(inSeq := (r.v.inSeq + 1) % 0x1_0000_0000) else r.v
  {
    hide AuthCode, MultiSessionInput;
  }

  lemma EnterIsSound(c: Suite, password: bytes, r: Run)
    requires Sound(c, password, r)
    ensures Sound(c, password, r.(v := r.v.(preSession := true)))
  {
    hide Consistent;
  }
}
