/** IPMI LAN messages (types_ipmi.go): request and response layout, the two
    checksums, and the requester sequence number. */
module IpmiMessage {
  import opened Bytes

  const SEQUENCE_MAX: byte := 0x3f

  const BMC_SA: byte := 0x20
  const REMOTE_CONSOLE_SWID: byte := 0x81

  /** Six bits; every network function of types_netfn.go is below 0x40. */
  type NetFn = x: byte | x < 0x40

  /** A request without its checksums, which are computed from the rest. */
  datatype Fields = Fields(responderAddr: byte, netFn: NetFn, responderLUN: byte, requesterAddr: byte,
                           requesterSequence: byte, requesterLUN: byte, command: byte, data: bytes)

  function Head(f: Fields): (b: bytes)
    ensures |b| == 2
  {
    [f.responderAddr, f.netFn * 4 + f.responderLUN % 4]
  }

  /** The sequence number is shifted left by two in a byte. */
  function Tail(f: Fields): bytes
  {
    [f.requesterAddr, f.requesterSequence * 4 % 0x100 + f.requesterLUN % 4, f.command] + f.data
  }

  function PackRequest(f: Fields, checksum1: byte, checksum2: byte): (b: bytes)
    ensures |b| == 7 + |f.data|
  {
    Head(f) + [checksum1] + Tail(f) + [checksum2]
  }

  /** The 8-bit two's complement of the sum of the bytes. */
  function Checksum(s: bytes): (c: byte)
    ensures (Total(s) + c) % 0x100 == 0
  {
    (0x100 - Total(s) % 0x100) % 0x100
  }

  class IpmiRequest {
    var fields: Fields
    var checksum1: byte
    var checksum2: byte

    constructor (f: Fields)
      ensures fields == f
    {
      fields, checksum1, checksum2 := f, 0, 0;
    }

    method Pack() returns (msg: bytes)
      ensures msg == PackRequest(fields, checksum1, checksum2)
    {
      hide Checksum, Total;
      var f, n := fields, 6 + |fields.data| + 1;
      var buffer := new byte[n](_ => 0);
      PackUint8(f.responderAddr, buffer, 0);
      PackUint8(f.netFn * 4 + f.responderLUN % 4, buffer, 1);
      assert buffer[..2] == Head(f);
      PackUint8(checksum1, buffer, 2);
      assert buffer[..3] == Head(f) + [checksum1];
      PackUint8(f.requesterAddr, buffer, 3);
      assert buffer[..4] == Head(f) + [checksum1] + Tail(f)[..1];
      PackUint8(f.requesterSequence * 4 % 0x100 + f.requesterLUN % 4, buffer, 4);
      assert buffer[..5] == Head(f) + [checksum1] + Tail(f)[..2];
      PackUint8(f.command, buffer, 5);
      assert buffer[..6] == Head(f) + [checksum1] + Tail(f)[..3];
      PackBytes(f.data, buffer, 6);
      assert buffer[..n - 1] == Head(f) + [checksum1] + Tail(f);
      PackUint8(checksum2, buffer, n - 1);
      assert buffer[..n] == PackRequest(f, checksum1, checksum2);
      msg := buffer[..];
    }

    /** Sets the checksum fields; the checksums do not depend on their old values. */
    method ComputeChecksum()
      modifies `checksum1, `checksum2
      ensures checksum1 == Checksum(Head(fields)) && checksum2 == Checksum(Tail(fields))
    {
      var tempData := Pack();
      var f := fields;
      checksum1 := SumRange(tempData, 0, 2);
      assert tempData[0..2] == Head(f);
      checksum2 := SumRange(tempData, 3, |tempData| - 1);
      assert tempData[3..|tempData| - 1] == Tail(f);
    }
  }

  method SumRange(msg: bytes, start: nat, end: nat) returns (checksum: byte)
    requires start <= end <= |msg|
    ensures checksum == Checksum(msg[start..end])
  {
    var c: nat := 0;
    for i := start to end
      invariant c == Total(msg[start..i]) % 0x100
    {
      assert msg[start..i + 1] == msg[start..i] + [msg[i]];
      TotalAppend(msg[start..i], [msg[i]]);
      assert Total([msg[i]]) == msg[i] by { assert [msg[i]][..0] == []; }
      c := (c + msg[i]) % 0x100;
    }
    checksum := (0x100 - c) % 0x100;
  }

  function Sealed(f: Fields): bytes
  {
    PackRequest(f, Checksum(Head(f)), Checksum(Tail(f)))
  }

  lemma SingleTotal(b: byte)
    ensures Total([b]) == b
  {
    assert [b][..0] == [];
  }

  /** Both parts of a request with computed checksums add up to 0 modulo 256. */
  lemma SealedPartsSumToZero(f: Fields)
    ensures var msg := Sealed(f); Total(msg[..3]) % 0x100 == 0 && Total(msg[3..]) % 0x100 == 0
  {
    var msg := Sealed(f);
    assert msg[..3] == Head(f) + [Checksum(Head(f))];
    assert msg[3..] == Tail(f) + [Checksum(Tail(f))];
    TotalAppend(Head(f), [Checksum(Head(f))]);
    TotalAppend(Tail(f), [Checksum(Tail(f))]);
    SingleTotal(Checksum(Head(f)));
    SingleTotal(Checksum(Tail(f)));
  }

  /** A part that adds up to 0 no longer does when one byte is changed. */
  lemma ChangedByteIsDetected(s: bytes, i: nat, b: byte)
    requires i < |s| && b != s[i] && Total(s) % 0x100 == 0
    ensures Total(s[i := b]) % 0x100 != 0
  {
    var before, after := s[..i], s[i + 1..];
    assert s == before + ([s[i]] + after) && s[i := b] == before + ([b] + after);
    TotalAppend(before, [s[i]] + after);
    TotalAppend([s[i]], after);
    TotalAppend(before, [b] + after);
    TotalAppend([b], after);
    SingleTotal(s[i]);
    SingleTotal(b);
  }

  /** What the responder reads of a request: addresses, command and data stand in
      their places, the units in the low bits of their bytes, and the shift of the
      sequence number loses nothing exactly when the number has six bits. */
  lemma SequenceSurvives(f: Fields)
    ensures var msg := Sealed(f);
      && |msg| == 7 + |f.data| && msg[0] == f.responderAddr && msg[3] == f.requesterAddr
      && msg[1] % 4 == f.responderLUN % 4 && msg[4] % 4 == f.requesterLUN % 4
      && msg[6..|msg| - 1] == f.data && msg[5] == f.command && msg[1] / 4 == f.netFn
      && (msg[4] / 4 == f.requesterSequence <==> f.requesterSequence <= SEQUENCE_MAX)
  {
    var msg := Sealed(f);
    assert msg[6..|msg| - 1] == f.data;
  }

  // ----- responses -----

  datatype Response = Response(requesterAddr: byte, netFn: NetFn, requestLUN: byte, checksum1: byte, responderAddr: byte,
                               requesterSequence: byte, responderLUN: byte, command: byte, completionCode: byte,
                               data: bytes, checksum2: byte)

  function UnpackResponse(msg: bytes): Option<Response>
  {
    if |msg| < 8 then None
    else
      Some(Response(msg[0], msg[1] / 4, msg[1] % 4, msg[2], msg[3], msg[4] / 4, msg[4] % 4, msg[5], msg[6],
                    msg[7..|msg| - 1], msg[|msg| - 1]))
  }

  /** Section 13.8 of IPMI v2.0, as a responder writes it. */
  function PackResponse(r: Response): bytes
    requires r.requesterSequence <= SEQUENCE_MAX && r.requestLUN < 4 && r.responderLUN < 4
  {
    [r.requesterAddr, r.netFn * 4 + r.requestLUN, r.checksum1, r.responderAddr,
     r.requesterSequence * 4 + r.responderLUN, r.command, r.completionCode] + r.data + [r.checksum2]
  }

  /** The fields of a response by offset. */
  lemma ResponseLayout(msg: bytes)
    requires |msg| >= 8
    ensures var r := UnpackResponse(msg);
      && r.Some?
      && r.value.requesterAddr == msg[0] && 4 * r.value.netFn as int + r.value.requestLUN as int == msg[1]
      && r.value.requestLUN < 4 && r.value.checksum1 == msg[2] && r.value.responderAddr == msg[3]
      && 4 * r.value.requesterSequence as int + r.value.responderLUN as int == msg[4] && r.value.responderLUN < 4
      && r.value.command == msg[5] && r.value.completionCode == msg[6]
      && [r.value.checksum2] == msg[|msg| - 1..] && msg[7..] == r.value.data + [r.value.checksum2]
  {
    assert msg[|msg| - 1..] == [msg[|msg| - 1]];
  }

  lemma ResponseRoundTrip(r: Response)
    requires r.requesterSequence <= SEQUENCE_MAX && r.requestLUN < 4 && r.responderLUN < 4
    ensures UnpackResponse(PackResponse(r)) == Some(r)
  {
    var msg := PackResponse(r);
    assert msg[7..|msg| - 1] == r.data;
  }

  // ----- the requester sequence counter -----

  /** BuildIPMIRequest hands out the counter and then advances it, from 63 back to 1. */
  function NextIpmiSeq(s: byte): byte
  {
    var n := (s + 1) % 0x100;
    if n > SEQUENCE_MAX then 1 else n
  }
}
