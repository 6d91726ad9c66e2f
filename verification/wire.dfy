/** The packet structures of types_session.go and types_rmcp.go as objects:
    Pack writes their fields into buffers, Unpack sets them from a message.
    Each is proved against the layouts of module Packets. */
module Wire {
  import opened Bytes
  import opened Packets

  class SessionHeader20 {
    var authType: byte
    var payloadEncrypted: bool
    var payloadAuthenticated: bool
    var payloadType: PayloadType
    var oemIANA: uint32
    var oemPayloadID: uint16
    var sessionID: uint32
    var sequence: uint32
    var payloadLength: uint16

    ghost function Value(): Header20
      reads this
    {
      Header20(authType, payloadEncrypted, payloadAuthenticated, payloadType, oemIANA, oemPayloadID,
               sessionID, sequence, payloadLength)
    }

    constructor (kind: byte, payload: PayloadType)
      ensures Value() == Header20(kind, false, false, payload, 0, 0, 0, 0, 0)
    {
      authType, payloadEncrypted, payloadAuthenticated, payloadType := kind, false, false, payload;
      oemIANA, oemPayloadID, sessionID, sequence, payloadLength := 0, 0, 0, 0, 0;
    }

    /** The largest header is written, or the smaller one, and then cut to size. */
    method Pack() returns (msg: bytes)
      ensures msg == PackHeader20(Value())
    {
      var t := (if payloadEncrypted then 0x80 else 0) + (if payloadAuthenticated then 0x40 else 0) + payloadType;
      assert t == TypeByte(Value());
      hide LE32, LE16, TypeByte;
      var buffer := new byte[18](_ => 0);
      PackUint8(authType, buffer, 0);
      PackUint8(t, buffer, 1);
      ghost var built := [authType, t];
      assert buffer[..2] == built;
      var sessionIDIndex := 2;
      if payloadType == PAYLOAD_OEM {
        PackUint32L(oemIANA, buffer, 2);
        assert buffer[..6] == built + LE32(oemIANA);
        PackUint16L(oemPayloadID, buffer, 6);
        assert buffer[..8] == built + (LE32(oemIANA) + LE16(oemPayloadID));
        sessionIDIndex := 8;
      }
      built := built + OemFields(Value());
      assert buffer[..sessionIDIndex] == built;
      PackTail(buffer, sessionIDIndex, built);
      msg := buffer[..sessionIDIndex + 10];
    }

    method PackTail(buffer: array<byte>, i: nat, ghost built: bytes)
      requires i + 10 <= buffer.Length && buffer[..i] == built
      modifies buffer
      ensures buffer[..i + 10] == built + TailBytes(sessionID, sequence, payloadLength)
    {
      hide LE32, LE16;
      PackUint32L(sessionID, buffer, i);
      assert buffer[..i + 4] == built + LE32(sessionID);
      PackUint32L(sequence, buffer, i + 4);
      assert buffer[..i + 8] == built + (LE32(sessionID) + LE32(sequence));
      PackUint16L(payloadLength, buffer, i + 8);
      assert buffer[..i + 10] == built + (LE32(sessionID) + LE32(sequence) + LE16(payloadLength));
    }

    /** Without an OEM payload type the OEM fields keep what they held. */
    method Unpack(msg: bytes) returns (ok: bool)
      modifies this
      ensures ok <==> UnpackHeader20(msg).Some?
      ensures ok ==> var h := UnpackHeader20(msg).value;
        Value() == if h.payloadType == PAYLOAD_OEM then h
                   else h.(oemIANA := old(oemIANA), oemPayloadID := old(oemPayloadID))
    {
      hide U32At, U16At;
      if |msg| < 12 {
        return false;
      }
      authType := UnpackUint8(msg, 0);
      var t := UnpackUint8(msg, 1);
      payloadEncrypted := t >= 0x80;
      payloadAuthenticated := t / 0x40 % 2 == 1;
      payloadType := t % 0x40;
      var sessionIDIndex := 2;
      if payloadType == PAYLOAD_OEM {
        if |msg| < 18 {
          return false;
        }
        oemIANA := UnpackUint32L(msg, 2);
        oemPayloadID := UnpackUint16L(msg, 6);
        sessionIDIndex := 8;
      }
      sessionID := UnpackUint32L(msg, sessionIDIndex);
      sequence := UnpackUint32L(msg, sessionIDIndex + 4);
      payloadLength := UnpackUint16L(msg, sessionIDIndex + 8);
      ok := true;
    }
  }

  class SessionTrailer {
    var integrityPad: bytes
    var padLength: byte
    var nextHeader: byte
    var authCode: bytes

    ghost function Value(): Trailer
      reads this
    {
      Trailer(integrityPad, padLength, nextHeader, authCode)
    }

    constructor (pad: bytes, length: byte, next: byte)
      ensures Value() == Trailer(pad, length, next, [])
    {
      integrityPad, padLength, nextHeader, authCode := pad, length, next, [];
    }

    method Pack() returns (msg: bytes)
      ensures msg == PackTrailer(Value())
    {
      var p := |integrityPad|;
      var n := p + 2 + |authCode|;
      var buffer := new byte[n](_ => 0);
      PackBytes(integrityPad, buffer, 0);
      assert buffer[..p] == integrityPad;
      PackUint8(padLength, buffer, p);
      assert buffer[..p + 1] == integrityPad + [padLength];
      PackUint8(nextHeader, buffer, p + 1);
      assert buffer[..p + 2] == integrityPad + [padLength, nextHeader];
      PackBytes(authCode, buffer, p + 2);
      assert buffer[..n] == integrityPad + [padLength, nextHeader] + authCode;
      msg := buffer[..];
    }

    /** A read that does not fit leaves the offset where the failing helper puts it. */
    method Unpack(msg: bytes, off: nat, padSize: nat)
      modifies this
      ensures Value() == UnpackTrailer(msg, off, padSize)
    {
      var off := off;
      integrityPad := UnpackBytes(msg, off, padSize);
      off := if off + padSize > |msg| then off else off + padSize;
      padLength := UnpackUint8(msg, off);
      off := if off + 1 > |msg| then |msg| else off + 1;
      nextHeader := UnpackUint8(msg, off);
      off := if off + 1 > |msg| then |msg| else off + 1;
      authCode := UnpackBytesMost(msg, off, 16);
    }
  }

  class SessionPacket20 {
    var header: SessionHeader20
    var payload: bytes
    var trailer: SessionTrailer?

    ghost function Value(): Session20
      reads this, header, trailer
    {
      Session20(header.Value(), payload, if trailer == null then None else Some(trailer.Value()))
    }

    constructor (h: SessionHeader20, p: bytes, t: SessionTrailer?)
      ensures header == h && payload == p && trailer == t
    {
      header, payload, trailer := h, p, t;
    }

    method Pack() returns (out: bytes)
      ensures out == PackSession20(Value())
    {
      out := header.Pack();
      out := out + payload;
      if trailer != null {
        var t := trailer.Pack();
        out := out + t;
      }
    }

    method Unpack(msg: bytes) returns (ok: bool)
      modifies this
      ensures ok <==> UnpackSession20(msg).Some?
      ensures ok ==> fresh(header) && (trailer != null ==> fresh(trailer)) && Value() == UnpackSession20(msg).value
    {
      hide UnpackHeader20, UnpackTrailer, PackHeader20, TrailerPadLength;
      var sessionHeader := new SessionHeader20(0, 0);
      ok := sessionHeader.Unpack(msg);
      if !ok {
        return;
      }
      header := sessionHeader;
      var start := if sessionHeader.payloadType == PAYLOAD_OEM then 18 else 12;
      var payloadLength := header.payloadLength as nat;
      if |msg| < start + payloadLength {
        return false;
      }
      payload := UnpackBytes(msg, start, payloadLength);
      trailer := null;
      if header.payloadAuthenticated && header.sessionID != 0 {
        var packed := sessionHeader.Pack();
        var padSize := TrailerPadLength(|packed|, |payload|);
        var sessionTrailer := new SessionTrailer([], 0, 0);
        sessionTrailer.Unpack(msg, start + payloadLength, padSize);
        trailer := sessionTrailer;
      }
    }
  }

  class SessionHeader15 {
    var authType: byte
    var sequence: uint32
    var sessionID: uint32
    var authCode: bytes
    var payloadLength: byte

    ghost function Value(): Header15
      reads this
    {
      Header15(authType, sequence, sessionID, authCode, payloadLength)
    }

    constructor (kind: byte, length: byte)
      ensures Value() == Header15(kind, 0, 0, [], length)
    {
      authType, sequence, sessionID, authCode, payloadLength := kind, 0, 0, [], length;
    }

    /** Without authentication the room for a code is left zero. */
    method Pack() returns (msg: bytes)
      ensures msg == PackHeader15(Value())
    {
      hide LE32;
      var n := 10 + |authCode|;
      var buffer := new byte[n](_ => 0);
      ghost var before := buffer[..];
      PackUint8(authType, buffer, 0);
      SpliceKeeps(before, 0, [authType], buffer[..]);
      ghost var built := [authType];
      assert buffer[..1] == built;
      before := buffer[..];
      PackUint32L(sequence, buffer, 1);
      SpliceKeeps(before, 1, LE32(sequence), buffer[..]);
      built := built + LE32(sequence);
      assert buffer[..5] == built;
      before := buffer[..];
      PackUint32L(sessionID, buffer, 5);
      SpliceKeeps(before, 5, LE32(sessionID), buffer[..]);
      built := built + LE32(sessionID);
      assert buffer[..9] == built;
      assert buffer[9..] == Fill(0, n - 9);
      ghost var code := if authType != AUTH_TYPE_NONE then authCode else Fill(0, |authCode|);
      if authType != AUTH_TYPE_NONE {
        PackBytes(authCode, buffer, 9);
      }
      assert buffer[..n - 1] == built + code;
      PackUint8(payloadLength, buffer, n - 1);
      msg := buffer[..];
      assert msg == buffer[..n] == built + code + [payloadLength];
    }

    /** Without authentication the code keeps what it held. */
    method Unpack(msg: bytes) returns (ok: bool)
      modifies this
      ensures ok <==> UnpackHeader15(msg).Some?
      ensures ok ==> var h := UnpackHeader15(msg).value;
        Value() == if h.authType == AUTH_TYPE_NONE then h.(authCode := old(authCode)) else h
    {
      hide U32At;
      if |msg| < 10 {
        return false;
      }
      authType := UnpackUint8(msg, 0);
      sequence := UnpackUint32L(msg, 1);
      sessionID := UnpackUint32L(msg, 5);
      var payloadLengthIndex := 9;
      if authType != AUTH_TYPE_NONE {
        if |msg| < 26 {
          return false;
        }
        authCode := UnpackBytes(msg, 9, 16);
        payloadLengthIndex := 25;
      }
      payloadLength := UnpackUint8(msg, payloadLengthIndex);
      ok := true;
    }
  }

  class SessionPacket15 {
    var header: SessionHeader15
    var payload: bytes

    ghost function Value(): Session15
      reads this, header
    {
      Session15(header.Value(), payload)
    }

    constructor (h: SessionHeader15, p: bytes)
      ensures header == h && payload == p
    {
      header, payload := h, p;
    }

    method Pack() returns (out: bytes)
      ensures out == PackSession15(Value())
    {
      out := header.Pack();
      out := out + payload;
    }

    method Unpack(msg: bytes) returns (ok: bool)
      modifies this
      ensures ok <==> UnpackSession15(msg).Some?
      ensures ok ==> fresh(header) && Value() == UnpackSession15(msg).value
    {
      hide PackHeader15, UnpackHeader15;
      var sessionHeader := new SessionHeader15(0, 0);
      ok := sessionHeader.Unpack(msg);
      if !ok {
        return;
      }
      NoCode(msg);
      header := sessionHeader;
      var packed := sessionHeader.Pack();
      var n := header.payloadLength as nat;
      if |msg| < |packed| + n {
        return false;
      }
      payload := UnpackBytes(msg, |packed|, n);
    }
  }

  lemma NoCode(msg: bytes)
    ensures var h := UnpackHeader15(msg);
      h.Some? && h.value.authType == AUTH_TYPE_NONE ==> h.value.authCode == []
  {}
}
