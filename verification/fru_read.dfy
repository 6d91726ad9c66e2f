/** Reading FRU inventory (cmd_read_fru_data.go, cmd_get_frus.go): single reads
    whose size adapts to the device, one read in many pieces, and the walk over
    multi-record areas. A device answers from everything it was asked so far,
    so it may refuse or shorten any read. */
module FruRead {
  import opened Bytes

  /** A successful answer carries a count and data, which the client does not compare. */
  datatype Reply = NoAnswer | Refused(cc: byte) | Answer(countReturned: byte, data: bytes)

  /** From the number of earlier requests, the offset and the count. */
  type Device = (nat, uint16, byte) -> Reply

  /** `Unfinished` stands for a loop still running after the given number of rounds. */
  datatype Reading<+T> = Done(value: T) | Failed | Panicked | Unfinished

  predicate LengthTooBig(cc: byte)
  {
    cc in {0xC7, 0xC8, 0xCA}
  }

  // ----- the loops as functions; the second result counts the requests so far -----

  function TryRead(d: Device, n: nat, offset: uint16, count: byte): (Option<Reply>, nat)
    decreases count
  {
    if count == 0 then (None, n)
    else
      match d(n, offset, count)
      case NoAnswer => (None, n + 1)
      case Refused(cc) => if LengthTooBig(cc) then TryRead(d, n + 1, offset, count - 1) else (None, n + 1)
      case Answer(k, data) => (Some(Answer(k, data)), n + 1)
  }

  function FirstCount(length: uint16): byte
  {
    if length <= 32 then length else 32
  }

  function ReadAll(d: Device, n: nat, offset: uint16, length: uint16, fuel: nat): (Reading<bytes>, nat)
    decreases fuel
  {
    if length == 0 then (Done([]), n)
    else if fuel == 0 then (Unfinished, n)
    else
      match TryRead(d, n, offset, FirstCount(length))
      case (Some(Answer(k, data)), n1) =>
        Joined(data, ReadAll(d, n1, (offset + k) % 0x1_0000, (length - k) % 0x1_0000, fuel - 1))
      case (_, n1) => (Failed, n1)
  }

  function Joined(data: bytes, r: (Reading<bytes>, nat)): (Reading<bytes>, nat)
  {
    if r.0.Done? then (Done(data + r.0.value), r.1) else r
  }

  // ----- multi-record areas -----

  datatype Record = Record(recordType: byte, endOfList: bool, formatVersion: byte, recordLength: byte,
                           recordChecksum: byte, headerChecksum: byte, recordData: bytes)

  /** Five header bytes, whose third is the length, and the data. */
  function UnpackRecord(msg: bytes): Reading<Record>
  {
    if |msg| < 3 || |msg| < msg[2] as nat then Failed
    else if |msg| < 5 then Panicked
    else
      Done(Record(msg[0], msg[1] >= 0x80, msg[1] % 0x10, msg[2], msg[3], msg[4], UnpackBytes(msg, 5, msg[2] as nat)))
  }

  /** 5 + RecordLength is added up in eight bits, the offset in sixteen. */
  function NextOffset(offset: uint16, recordLength: byte): uint16
  {
    (offset + (5 + recordLength as int) % 0x100) % 0x1_0000
  }

  /** One record: the header is read to learn the length, then the whole record is. */
  function ReadRecord(d: Device, n: nat, offset: uint16, patience: nat): (Reading<Record>, nat)
  {
    match d(n, offset, 5)
    case Answer(_, header) =>
      if |header| < 3 then (Panicked, n + 1)
      else
        var (r, n1) := ReadAll(d, n + 1, offset, 5 + header[2] as int, patience);
        (match r
         case Done(data) => UnpackRecord(data)
         case Failed => Failed
         case Panicked => Panicked
         case Unfinished => Unfinished, n1)
    case _ => (Failed, n + 1)
  }

  /** The records of a walk, the offsets at which it looked for one, and the requests so far. */
  datatype Walk = Walk(result: Reading<seq<Record>>, offsets: seq<uint16>, sent: nat)

  function WalkFrom(d: Device, n: nat, offset: uint16, fuel: nat, patience: nat): (w: Walk)
    ensures fuel > 0 ==> w.offsets != [] && w.offsets[0] == offset
    decreases fuel
  {
    if fuel == 0 then Walk(Unfinished, [], n)
    else
      var (r, n1) := ReadRecord(d, n, offset, patience);
      match r
      case Failed => Walk(Failed, [offset], n1)
      case Panicked => Walk(Panicked, [offset], n1)
      case Unfinished => Walk(Unfinished, [offset], n1)
      case Done(record) =>
        if record.endOfList then Walk(Done([record]), [offset], n1)
        else Before(record, offset, WalkFrom(d, n1, NextOffset(offset, record.recordLength), fuel - 1, patience))
  }

  function Before(record: Record, offset: uint16, w: Walk): Walk
  {
    Walk(if w.result.Done? then Done([record] + w.result.value) else w.result, [offset] + w.offsets, w.sent)
  }

  class FruClient {
    const device: Device
    var sent: nat

    constructor (d: Device)
      ensures device == d && sent == 0
    {
      device, sent := d, 0;
    }

    method ReadFRUData(offset: uint16, count: byte) returns (r: Reply)
      modifies this
      ensures r == device(old(sent), offset, count) && sent == old(sent) + 1
    {
      r := device(sent, offset, count);
      sent := sent + 1;
    }

    method TryReadFRUData(offset: uint16, length: uint16) returns (r: Option<Reply>)
      modifies this
      ensures (r, sent) == TryRead(device, old(sent), offset, FirstCount(length))
      ensures r.Some? ==> r.value.Answer?
    {
      var readCount: byte := 32;
      if length <= 32 {
        readCount := length;
      }
      while true
        invariant TryRead(device, old(sent), offset, FirstCount(length)) == TryRead(device, sent, offset, readCount)
        decreases readCount
      {
        if readCount == 0 {
          return None;
        }
        var res := ReadFRUData(offset, readCount);
        match res
        case Answer(_, _) => return Some(res);
        case NoAnswer => return None;
        case Refused(cc) =>
          if !LengthTooBig(cc) {
            return None;
          }
          readCount := readCount - 1;
      }
    }

    method ReadFRUDataByLength(offset: uint16, length: uint16, fuel: nat) returns (r: Reading<bytes>)
      modifies this
      ensures (r, sent) == ReadAll(device, old(sent), offset, length, fuel)
    {
      hide TryRead;
      ghost var n := sent;
      var data: bytes, at: uint16, left: uint16 := [], offset, length;
      JoinedNothing(ReadAll(device, n, offset, length, fuel));
      for round := 0 to fuel
        invariant ReadAll(device, n, offset, length, fuel)
                  == Joined(data, ReadAll(device, sent, at, left, fuel - round))
      {
        if left == 0 {
          assert data + [] == data;
          return Done(data);
        }
        var res := TryReadFRUData(at, left);
        if res.None? {
          return Failed;
        }
        ghost var before, more := data, res.value.data;
        data := data + res.value.data;
        left := (left - res.value.countReturned) % 0x1_0000;
        at := (at + res.value.countReturned) % 0x1_0000;
        JoinedTwice(before, more, ReadAll(device, sent, at, left, fuel - round - 1));
      }
      assert data + [] == data;
      r := if left == 0 then Done(data) else Unfinished;
    }

    /** An area starts with a version byte and its length in units of eight bytes. */
    method ReadArea(offset: uint16, fuel: nat) returns (r: Reading<bytes>)
      modifies this
      ensures (r, sent) == AreaBytes(device, old(sent), offset, fuel)
    {
      var res := ReadFRUData(offset, 2);
      if !res.Answer? {
        return Failed;
      }
      if |res.data| < 2 {
        return Panicked;
      }
      r := ReadFRUDataByLength(offset, res.data[1] as int * 8, fuel);
    }

    method ReadRecordAt(offset: uint16, patience: nat) returns (r: Reading<Record>)
      modifies this
      ensures (r, sent) == ReadRecord(device, old(sent), offset, patience)
    {
      var res := ReadFRUData(offset, 5);
      if !res.Answer? {
        return Failed;
      }
      if |res.data| < 3 {
        return Panicked;
      }
      var read := ReadFRUDataByLength(offset, 5 + res.data[2] as int, patience);
      match read
      case Failed => r := Failed;
      case Panicked => r := Panicked;
      case Unfinished => r := Unfinished;
      case Done(data) => r := UnpackRecord(data);
    }

    method GetFRUAreaMultiRecords(offset: uint16, fuel: nat, patience: nat) returns (r: Reading<seq<Record>>)
      modifies this
      ensures (r, sent) == Ends(WalkFrom(device, old(sent), offset, fuel, patience))
    {
      hide ReadRecord, WalkFrom;
      ghost var n := sent;
      var records: seq<Record>, at: uint16 := [], offset;
      AfterNoRecords(WalkFrom(device, n, offset, fuel, patience));
      for round := 0 to fuel
        invariant AfterRecords(records, WalkFrom(device, sent, at, fuel - round, patience))
                  == Ends(WalkFrom(device, n, offset, fuel, patience))
      {
        ghost var before, from := records, at;
        OneRecord(device, sent, at, fuel - round, patience);
        var read := ReadRecordAt(at, patience);
        match read {
          case Failed => return Failed;
          case Panicked => return Panicked;
          case Unfinished => return Unfinished;
          case Done(record) =>
            records := records + [record];
            if record.endOfList {
              return Done(records);
            }
            at := (at + (5 + record.recordLength as int) % 0x100) % 0x1_0000;
            AfterTwice(before, record, from, WalkFrom(device, sent, at, fuel - round - 1, patience));
        }
      }
      assert WalkFrom(device, sent, at, 0, patience) == Walk(Unfinished, [], sent) by { NoRecord(device, sent, at, patience); }
      r := Unfinished;
    }
  }

  lemma NoRecord(d: Device, n: nat, offset: uint16, patience: nat)
    ensures WalkFrom(d, n, offset, 0, patience) == Walk(Unfinished, [], n)
  {}

  lemma OneRecord(d: Device, n: nat, offset: uint16, fuel: nat, patience: nat)
    requires fuel > 0
    ensures var (r, n1) := ReadRecord(d, n, offset, patience);
      WalkFrom(d, n, offset, fuel, patience)
      == match r
         case Failed => Walk(Failed, [offset], n1)
         case Panicked => Walk(Panicked, [offset], n1)
         case Unfinished => Walk(Unfinished, [offset], n1)
         case Done(record) =>
           if record.endOfList then Walk(Done([record]), [offset], n1)
           else Before(record, offset, WalkFrom(d, n1, NextOffset(offset, record.recordLength), fuel - 1, patience))
  {
    hide ReadRecord;
  }

  function AreaBytes(d: Device, n: nat, offset: uint16, fuel: nat): (Reading<bytes>, nat)
  {
    match d(n, offset, 2)
    case Answer(_, header) =>
      if |header| < 2 then (Panicked, n + 1) else ReadAll(d, n + 1, offset, header[1] as int * 8, fuel)
    case _ => (Failed, n + 1)
  }

  lemma JoinedTwice(a: bytes, b: bytes, r: (Reading<bytes>, nat))
    ensures Joined(a + b, r) == Joined(a, Joined(b, r))
  {
    if r.0.Done? {
      assert (a + b) + r.0.value == a + (b + r.0.value);
    }
  }

  lemma JoinedNothing(r: (Reading<bytes>, nat))
    ensures Joined([], r) == r
  {
    if r.0.Done? {
      assert [] + r.0.value == r.0.value;
    }
  }

  function Ends(w: Walk): (Reading<seq<Record>>, nat)
  {
    (w.result, w.sent)
  }

  function AfterRecords(records: seq<Record>, w: Walk): (Reading<seq<Record>>, nat)
  {
    (if w.result.Done? then Done(records + w.result.value) else w.result, w.sent)
  }

  lemma AfterNoRecords(w: Walk)
    ensures AfterRecords([], w) == Ends(w)
  {
    if w.result.Done? {
      assert [] + w.result.value == w.result.value;
    }
  }

  lemma AfterTwice(records: seq<Record>, record: Record, offset: uint16, w: Walk)
    ensures AfterRecords(records + [record], w) == AfterRecords(records, Before(record, offset, w))
  {
    if w.result.Done? {
      assert (records + [record]) + w.result.value == records + ([record] + w.result.value);
    }
  }

  // ----- devices that hold a memory -----

  /** Every answer has between one and the asked number of bytes, and they are
      the memory's. The device may refuse or not answer as it likes. The size
      of a FRU inventory area is a 16-bit number. */
  ghost predicate Honest(d: Device, m: bytes)
  {
    && |m| < 0x1_0000
    && forall n: nat, offset: uint16, count: byte :: HonestReply(m, offset, count, d(n, offset, count))
  }

  predicate HonestReply(m: bytes, offset: uint16, count: byte, r: Reply)
  {
    count > 0 && r.Answer? ==>
      && 1 <= r.countReturned <= count
      && offset + r.countReturned <= |m|
      && r.data == m[offset..offset + r.countReturned]
  }

  /** It refuses a read within the memory only as too big, and never a single byte. */
  ghost predicate Obliging(d: Device, m: bytes)
  {
    forall n: nat, offset: uint16, count: byte ::
      0 < count && offset + count <= |m| ==> Obliges(count, d(n, offset, count))
  }

  predicate Obliges(count: byte, r: Reply)
  {
    r.Answer? || (r.Refused? && r.cc in {0xc7, 0xc8, 0xca} && count > 1)
  }

  /** Request data length invalid, length limit exceeded and cannot return the
      number of bytes: these refusals, and no other, are met by asking for one
      byte less, until none is left to ask for. */
  lemma RefusalIsRetried(d: Device, n: nat, offset: uint16, count: byte)
    requires count > 0 && d(n, offset, count).Refused?
    ensures var again := d(n, offset, count).cc in {0xc7, 0xc8, 0xca} && count > 1;
      TryRead(d, n, offset, count) == if again then TryRead(d, n + 1, offset, count - 1) else (None, n + 1)
  {
    var cc := d(n, offset, count).cc;
    assert LengthTooBig(cc) <==> cc in {0xc7, 0xc8, 0xca};
    assert TryRead(d, n, offset, count) == if LengthTooBig(cc) then TryRead(d, n + 1, offset, count - 1) else (None, n + 1);
    assert count == 1 ==> TryRead(d, n + 1, offset, 0) == (None, n + 1);
  }

  lemma {:induction false} TryReadIsHonest(d: Device, m: bytes, n: nat, offset: uint16, count: byte)
    requires Honest(d, m)
    ensures var (r, n1) := TryRead(d, n, offset, count);
      && n1 <= n + count
      && (r.Some? ==> r.value.Answer? && count > 0 && HonestReply(m, offset, count, r.value))
      && (Obliging(d, m) && 0 < count && offset + count <= |m| ==> r.Some?)
    decreases count
  {
    if count > 0 {
      var r := d(n, offset, count);
      assert HonestReply(m, offset, count, r);
      if Obliging(d, m) && offset + count <= |m| {
        assert Obliges(count, r);
      }
      if r.Refused? && LengthTooBig(r.cc) {
        TryReadIsHonest(d, m, n + 1, offset, count - 1);
      }
    }
  }

  /** One round of the loop, when the answer is within what was asked. */
  lemma OneRound(d: Device, n: nat, offset: uint16, length: uint16, fuel: nat)
    requires length > 0 && fuel > 0
    ensures var (t, n1) := TryRead(d, n, offset, FirstCount(length));
      && (t.None? ==> ReadAll(d, n, offset, length, fuel) == (Failed, n1))
      && (t.Some? && t.value.Answer? && t.value.countReturned <= length && offset + t.value.countReturned < 0x1_0000 ==>
            var k := t.value.countReturned;
            ReadAll(d, n, offset, length, fuel)
            == Joined(t.value.data, ReadAll(d, n1, offset + k, length - k, fuel - 1)))
  {
    hide TryRead, Joined;
  }

  /** Reading in pieces gives what one big read would have given, or fails; it
      ends, with at most 32 requests for each byte; and a device that refuses
      reads only for their size does not make it fail. */
  lemma {:induction false} PiecesAreOneRead(d: Device, m: bytes, n: nat, offset: uint16, length: uint16, fuel: nat)
    requires Honest(d, m) && length <= fuel
    ensures var (r, n1) := ReadAll(d, n, offset, length, fuel);
      && (r.Done? || r.Failed?)
      && n1 <= n + 32 * length as nat
      && IsStretch(m, offset, length, r)
      && (Obliging(d, m) && offset + length <= |m| ==> r.Done?)
    decreases length
  {
    hide Honest, Obliging, TryRead, IsStretch, ReadAll, Joined;
    if length == 0 {
      NothingIsRead(d, m, n, offset, fuel);
    } else {
      FailureIsStretch(m, offset, length);
      OneRound(d, n, offset, length, fuel);
      TryReadIsHonest(d, m, n, offset, FirstCount(length));
      var (t, n1) := TryRead(d, n, offset, FirstCount(length));
      if t.Some? {
        var k := t.value.countReturned;
        InMemory(d, m);
        PiecesAreOneRead(d, m, n1, offset + k, length - k, fuel - 1);
        StretchesJoin(m, offset, k, length, t.value.data, ReadAll(d, n1, offset + k, length - k, fuel - 1));
      }
    }
  }

  /** What a finished read has read: the memory from offset on, or nothing. */
  predicate IsStretch(m: bytes, offset: nat, length: nat, r: Reading<bytes>)
  {
    && (r.Done? && length > 0 ==> offset + length <= |m| && r.value == m[offset..offset + length])
    && (length == 0 ==> r == Done([]))
  }

  lemma NothingIsRead(d: Device, m: bytes, n: nat, offset: uint16, fuel: nat)
    ensures ReadAll(d, n, offset, 0, fuel) == (Done([]), n) && IsStretch(m, offset, 0, Done([]))
  {}

  lemma FailureIsStretch(m: bytes, offset: nat, length: nat)
    ensures length > 0 ==> IsStretch(m, offset, length, Failed)
  {}

  lemma StretchesJoin(m: bytes, offset: nat, k: nat, length: nat, data: bytes, rest: (Reading<bytes>, nat))
    requires 0 < k <= length && offset + k <= |m| && data == m[offset..offset + k]
    requires IsStretch(m, offset + k, length - k, rest.0)
    ensures IsStretch(m, offset, length, Joined(data, rest).0)
    ensures Joined(data, rest).1 == rest.1
    ensures Joined(data, rest).0.Done? == rest.0.Done? && Joined(data, rest).0.Failed? == rest.0.Failed?
  {
    if rest.0.Done? && k < length {
      assert m[offset..offset + length] == data + m[offset + k..offset + length];
    } else if rest.0.Done? {
      assert data + [] == data;
    }
  }

  lemma InMemory(d: Device, m: bytes)
    requires Honest(d, m)
    ensures |m| < 0x1_0000
  {}

  /** From a device that refuses reads only for their size, a nonempty stretch
      is read exactly when it lies within the memory. */
  lemma ReadsWithinMemory(d: Device, m: bytes, n: nat, offset: uint16, length: uint16, fuel: nat)
    requires Honest(d, m) && Obliging(d, m) && 0 < length <= fuel
    ensures var r := ReadAll(d, n, offset, length, fuel).0;
      if offset + length <= |m| then r == Done(m[offset..offset + length]) else r == Failed
  {
    hide Honest, Obliging;
    PiecesAreOneRead(d, m, n, offset, length, fuel);
  }

  /** It gives every stretch of its memory that is asked for, in one answer. */
  ghost predicate Generous(d: Device, m: bytes)
  {
    && |m| < 0x1_0000
    && forall n: nat, offset: uint16, count: byte :: GivesAll(m, offset, count, d(n, offset, count))
  }

  predicate GivesAll(m: bytes, offset: uint16, count: byte, r: Reply)
  {
    offset + count <= |m| ==> r == Answer(count, m[offset..offset + count])
  }

  /** From such a device every stretch is read in as few requests as 32 bytes at a
      time allow. */
  lemma {:induction false} GenerousReadIsFast(d: Device, m: bytes, n: nat, offset: uint16, length: uint16, fuel: nat)
    requires Generous(d, m) && offset + length <= |m| && length <= fuel
    ensures ReadAll(d, n, offset, length, fuel) == (Done(m[offset..offset + length]), n + (length + 31) / 32)
    decreases length
  {
    hide Generous, TryRead, ReadAll, Joined;
    assert |m| < 0x1_0000 by { GenerousMemory(d, m); }
    if length == 0 {
      NothingIsRead(d, m, n, offset, fuel);
      assert m[offset..offset + length] == [];
    } else {
      var k: byte := if length <= 32 then length else 32;
      GenerousAnswer(d, m, n, offset, k);
      OneRound(d, n, offset, length, fuel);
      GenerousReadIsFast(d, m, n + 1, offset + k, length - k, fuel - 1);
      JoinedSlices(m, offset, k, length, n + (length + 31) / 32);
    }
  }

  lemma GenerousMemory(d: Device, m: bytes)
    requires Generous(d, m)
    ensures |m| < 0x1_0000
  {}

  lemma GenerousAnswer(d: Device, m: bytes, n: nat, offset: uint16, count: byte)
    requires Generous(d, m) && 0 < count && offset + count <= |m|
    ensures TryRead(d, n, offset, count) == (Some(Answer(count, m[offset..offset + count])), n + 1)
  {
    assert GivesAll(m, offset, count, d(n, offset, count));
  }

  lemma JoinedSlices(m: bytes, offset: nat, k: nat, length: nat, sent: nat)
    requires k <= length && offset + length <= |m|
    ensures Joined(m[offset..offset + k], (Done(m[offset + k..offset + k + (length - k)]), sent))
      == (Done(m[offset..offset + length]), sent)
  {
    assert m[offset..offset + length] == m[offset..offset + k] + m[offset + k..offset + length];
  }

  /** An area read gives the area the header announces; it panics exactly when
      the header read returns fewer than two bytes. From a device that refuses
      reads only for their size it is done, once the header is there, if and only
      if the announced area lies within the memory. */
  lemma AreaIsAnnounced(d: Device, m: bytes, n: nat, offset: uint16, fuel: nat)
    requires Honest(d, m) && fuel >= 2040
    ensures var r, header := AreaBytes(d, n, offset, fuel).0, d(n, offset, 2);
      && (r.Panicked? <==> header.Answer? && |header.data| < 2)
      && (!header.Answer? ==> r == Failed)
      && (header.Answer? && |header.data| >= 2 ==>
            && offset + 2 <= |m|
            && var size := m[offset + 1] as nat * 8;
            && (r.Done? || r.Failed?)
            && (r.Done? ==> size == 0 || offset + size <= |m|)
            && (r.Done? ==> r.value == if size == 0 then [] else m[offset..offset + size])
            && (Obliging(d, m) && (size == 0 || offset + size <= |m|) ==> r.Done?))
  {
    hide ReadAll, Obliging;
    var header := d(n, offset, 2);
    assert HonestReply(m, offset, 2, header);
    if header.Answer? && |header.data| >= 2 {
      PiecesAreOneRead(d, m, n + 1, offset, header.data[1] as int * 8, fuel);
    }
  }

  // ----- the walk over a multi-record area -----

  function RecordAt(m: bytes, offset: nat): Record
    requires offset + 5 <= |m| && offset + 5 + m[offset + 2] as nat <= |m|
  {
    var size := m[offset + 2] as nat;
    Record(m[offset], m[offset + 1] >= 0x80, m[offset + 1] % 0x10, m[offset + 2], m[offset + 3], m[offset + 4],
           m[offset + 5..offset + 5 + size])
  }

  /** The records of an area stand one behind the other, and the last one alone
      is marked as the end of the list (section 16 of the FRU storage definition). */
  ghost predicate IsChain(m: bytes, offsets: seq<uint16>)
    decreases |offsets|
  {
    && offsets != []
    && RecordFits(m, offsets[0])
    && var r := RecordAt(m, offsets[0]);
    if |offsets| == 1 then r.endOfList
    else !r.endOfList && offsets[1] == offsets[0] + 5 + r.recordLength as int && IsChain(m, offsets[1..])
  }

  predicate RecordFits(m: bytes, offset: nat)
  {
    offset + 5 <= |m| && offset + 5 + m[offset + 2] as nat <= |m|
  }

  predicate AllFit(m: bytes, offsets: seq<uint16>)
  {
    forall i :: 0 <= i < |offsets| ==> RecordFits(m, offsets[i])
  }

  function Records(m: bytes, offsets: seq<uint16>): seq<Record>
    requires AllFit(m, offsets)
  {
    seq(|offsets|, i requires 0 <= i < |offsets| => RecordAt(m, offsets[i]))
  }

  lemma {:induction false} ChainFits(m: bytes, offsets: seq<uint16>)
    requires IsChain(m, offsets)
    ensures AllFit(m, offsets)
    decreases |offsets|
  {
    if |offsets| > 1 {
      ChainFits(m, offsets[1..]);
      assert forall i :: 1 <= i < |offsets| ==> offsets[i] == offsets[1..][i - 1];
    }
  }

  /** The answer to a header read reaches the length, its third byte. */
  predicate GivesLength(header: Reply)
  {
    header.Answer? && |header.data| >= 3
  }

  /** One record that lies within the memory is read exactly if the answer to
      the header read reaches its length; the client panics exactly on a shorter
      answer, and fails exactly when there is none. */
  lemma RecordIsRead(d: Device, m: bytes, n: nat, offset: uint16, patience: nat)
    requires Honest(d, m) && Obliging(d, m) && patience >= 260
    requires RecordFits(m, offset)
    ensures var r, header := ReadRecord(d, n, offset, patience).0, d(n, offset, 5);
      && (if GivesLength(header) then r == Done(RecordAt(m, offset)) else !r.Done?)
      && (r.Panicked? <==> header.Answer? && |header.data| < 3)
      && (r.Failed? <==> !header.Answer?)
  {
    hide ReadAll, Obliging;
    var header := d(n, offset, 5);
    assert HonestReply(m, offset, 5, header);
    if GivesLength(header) {
      assert header.data[2] == m[offset + 2];
      var size := 5 + header.data[2] as nat;
      WholeRecord(d, m, n + 1, offset, size, patience);
    }
  }

  lemma WholeRecord(d: Device, m: bytes, n: nat, offset: uint16, size: nat, patience: nat)
    requires Honest(d, m) && Obliging(d, m) && patience >= 260
    requires RecordFits(m, offset) && size == 5 + m[offset + 2] as nat
    ensures ReadAll(d, n, offset, size, patience).0 == Done(m[offset..offset + size])
    ensures UnpackRecord(m[offset..offset + size]) == Done(RecordAt(m, offset))
  {
    hide ReadAll, Honest, Obliging;
    ReadsWithinMemory(d, m, n, offset, size, patience);
    var msg := m[offset..offset + size];
    assert msg[2] == m[offset + 2];
    assert msg[5..size] == m[offset + 5..offset + size];
  }

  /** The record behind a long one is looked for in the wrong place: with 251
      data bytes it is the same record again. */
  lemma NextOffsetIsRight(offset: uint16, recordLength: byte)
    requires offset + 5 + recordLength < 0x1_0000
    ensures NextOffset(offset, recordLength) == offset + 5 + recordLength <==> recordLength <= 250
    ensures recordLength == 251 ==> NextOffset(offset, recordLength) == offset
  {}

  /** The answers to the header reads at these offsets, one record after the
      other, all reach the length. */
  predicate GivesLengths(d: Device, n: nat, offsets: seq<uint16>, patience: nat)
    decreases |offsets|
  {
    offsets == [] || (GivesLength(d(n, offsets[0], 5))
                      && GivesLengths(d, ReadRecord(d, n, offsets[0], patience).1, offsets[1..], patience))
  }

  /** The walk visits the records of a chain, returns them in order and stops
      at the first end-of-list mark, if and only if every record before the
      last one has at most 250 data bytes and every header answer reaches the
      length. */
  lemma {:induction false} WalkFollowsChain(d: Device, m: bytes, offsets: seq<uint16>, n: nat, fuel: nat, patience: nat)
    requires Honest(d, m) && Obliging(d, m) && patience >= 260
    requires IsChain(m, offsets) && fuel > |offsets|
    ensures AllFit(m, offsets)
    ensures var w := WalkFrom(d, n, offsets[0], fuel, patience);
      w.offsets == offsets && w.result == Done(Records(m, offsets))
      <==> ShortBeforeLast(m, offsets) && GivesLengths(d, n, offsets, patience)
    decreases |offsets|
  {
    hide Honest, Obliging, ReadRecord, NextOffset, GivesLength, WalkFrom;
    ChainFits(m, offsets);
    var o, rest := offsets[0], offsets[1..];
    RecordIsRead(d, m, n, o, patience);
    OneRecord(d, n, o, fuel, patience);
    assert offsets == [o] + rest;
    if GivesLength(d(n, o, 5)) {
      var r, n1 := RecordAt(m, o), ReadRecord(d, n, o, patience).1;
      if |offsets| == 1 {
        assert Records(m, offsets) == [r];
      } else {
        NextOffsetIsRight(o, r.recordLength);
        var w := WalkFrom(d, n1, NextOffset(o, r.recordLength), fuel - 1, patience);
        assert WalkFrom(d, n, o, fuel, patience) == Before(r, o, w);
        assert w.offsets == ([o] + w.offsets)[1..];
        if r.recordLength <= 250 {
          WalkFollowsChain(d, m, rest, n1, fuel - 1, patience);
          assert Records(m, offsets) == [r] + Records(m, rest);
          assert w.result.Done? ==> w.result.value == ([r] + w.result.value)[1..];
          assert Records(m, rest) == Records(m, offsets)[1..];
        }
      }
    }
  }

  /** Whatever else an honest device refuses, a record that is read is the one in
      the memory. */
  lemma ReadRecordIsHonest(d: Device, m: bytes, n: nat, offset: uint16, patience: nat)
    requires Honest(d, m) && RecordFits(m, offset) && patience >= 260
    ensures var r := ReadRecord(d, n, offset, patience).0; r.Done? ==> r.value == RecordAt(m, offset)
  {
    hide ReadAll;
    var header := d(n, offset, 5);
    assert HonestReply(m, offset, 5, header);
    if GivesLength(header) {
      assert header.data[2] == m[offset + 2];
      var size := 5 + header.data[2] as nat;
      PiecesAreOneRead(d, m, n + 1, offset, size, patience);
      var msg := m[offset..offset + size];
      assert msg[2] == m[offset + 2] && msg[5..size] == m[offset + 5..offset + size];
    }
  }

  /** So a walk that finishes on a chain with short records has visited exactly
      the chain and returns its records, for every honest device. */
  lemma {:induction false} FinishedWalkIsChain(d: Device, m: bytes, offsets: seq<uint16>, n: nat, fuel: nat, patience: nat)
    requires Honest(d, m) && patience >= 260
    requires IsChain(m, offsets)
    ensures AllFit(m, offsets)
    ensures var w := WalkFrom(d, n, offsets[0], fuel, patience);
      w.result.Done? && ShortBeforeLast(m, offsets) ==> w.offsets == offsets && w.result.value == Records(m, offsets)
    decreases |offsets|
  {
    hide Honest, ReadRecord, NextOffset, WalkFrom;
    ChainFits(m, offsets);
    var o, rest := offsets[0], offsets[1..];
    var (read, n1) := ReadRecord(d, n, o, patience);
    ReadRecordIsHonest(d, m, n, o, patience);
    assert offsets == [o] + rest;
    if fuel == 0 {
      NoRecord(d, n, o, patience);
    } else {
      OneRecord(d, n, o, fuel, patience);
      if read.Done? {
        if |offsets| == 1 {
          assert Records(m, offsets) == [RecordAt(m, o)];
        } else if read.value.recordLength <= 250 {
          NextOffsetIsRight(o, read.value.recordLength);
          FinishedWalkIsChain(d, m, rest, n1, fuel - 1, patience);
          assert Records(m, offsets) == [RecordAt(m, o)] + Records(m, rest);
        }
      }
    }
  }

  /** Every record before the last one has at most 250 data bytes. */
  predicate ShortBeforeLast(m: bytes, offsets: seq<uint16>)
    requires AllFit(m, offsets)
    decreases |offsets|
  {
    |offsets| <= 1 || (m[offsets[0] + 2] <= 250 && ShortBeforeLast(m, offsets[1..]))
  }
}
