/** Cipher suite discovery (cmd_get_channel_cipher_suites.go,
    types_cipher_suite_id.go): the record data is read in pages of 16 bytes,
    parsed, and the suites are put in order of preference. */
module CipherSuites {
  import opened Bytes
  import opened Crypto
  import opened Handshake
  import Rakp

  const STANDARD: byte := 0xC0
  const OEM: byte := 0xC1

  datatype SuiteRecord = SuiteRecord(startOfRecord: byte, id: byte, oemIana: uint32, authAlg: SixBits,
                                     integrityAlgs: seq<SixBits>, cryptAlgs: seq<SixBits>)

  // ----- paging -----

  const MAX_LIST_INDEX: byte := 0x3f

  /** The response message for a list index, or None for an error. */
  type Pages = byte -> Option<bytes>

  /** The records of a response: at most 16 bytes behind the channel number. */
  function PageRecords(msg: bytes): Option<bytes>
  {
    if |msg| < 1 then None else Some(Most(msg, 1, 16))
  }

  function Page(pages: Pages, index: byte): Option<bytes>
  {
    var msg := pages(index);
    if msg.None? then None else PageRecords(msg.value)
  }

  function Collected(pages: Pages, index: byte): Option<bytes>
    decreases MAX_LIST_INDEX as int - index as int
  {
    if index >= MAX_LIST_INDEX then Some([])
    else
      match Page(pages, index)
      case None => None
      case Some(p) =>
        if |p| < 16 then Some(p)
        else
          match Collected(pages, index + 1)
          case None => None
          case Some(rest) => Some(p + rest)
  }

  function AfterPages(data: bytes, rest: Option<bytes>): Option<bytes>
  {
    if rest.None? then None else Some(data + rest.value)
  }

  method CollectPages(pages: Pages) returns (r: Option<bytes>)
    ensures r == Collected(pages, 0)
  {
    var data: bytes, index: byte := [], 0;
    assert AfterPages([], Collected(pages, 0)) == Collected(pages, 0) by { NothingBefore(Collected(pages, 0)); }
    while index < MAX_LIST_INDEX
      invariant index <= MAX_LIST_INDEX
      invariant Collected(pages, 0) == AfterPages(data, Collected(pages, index))
    {
      var res := Page(pages, index);
      if res.None? {
        return None;
      }
      ghost var before := data;
      data := data + res.value;
      if |res.value| < 16 {
        return Some(data);
      }
      index := index + 1;
      MorePages(before, res.value, Collected(pages, index));
    }
    assert data + [] == data;
    r := Some(data);
  }

  lemma NothingBefore(rest: Option<bytes>)
    ensures AfterPages([], rest) == rest
  {
    if rest.Some? {
      assert [] + rest.value == rest.value;
    }
  }

  lemma MorePages(a: bytes, b: bytes, rest: Option<bytes>)
    ensures AfterPages(a + b, rest) == AfterPages(a, AfterPages(b, rest))
  {
    if rest.Some? {
      assert (a + b) + rest.value == a + (b + rest.value);
    }
  }

  /** A managed system that serves its record data in pages of 16 bytes. */
  ghost predicate Serves(pages: Pages, channel: byte, d: bytes)
  {
    forall i: byte :: i < MAX_LIST_INDEX ==> pages(i) == Some([channel] + Most(d, 16 * i, 16))
  }

  lemma MostJoins(d: bytes, off: nat, length: nat)
    requires length >= 16
    ensures Most(d, off, length) == Most(d, off, 16) + Most(d, off + 16, length - 16)
    ensures |Most(d, off, 16)| < 16 ==> Most(d, off, length) == Most(d, off, 16)
  {}

  lemma NoneIsMost(d: bytes, off: nat)
    ensures Most(d, off, 0) == []
  {}

  lemma PageOf(channel: byte, page: bytes)
    requires |page| <= 16
    ensures PageRecords([channel] + page) == Some(page)
  {
    var msg := [channel] + page;
    assert msg[1..1 + |page|] == page && msg[1..] == page;
  }

  lemma OnePage(pages: Pages, channel: byte, d: bytes, index: byte)
    requires Serves(pages, channel, d) && index < MAX_LIST_INDEX
    ensures Page(pages, index) == PageRecords([channel] + Most(d, 16 * index, 16))
  {
    hide PageRecords;
  }

  /** The client collects the data, or its first 1008 bytes. */
  lemma {:induction false} PagesAreData(pages: Pages, channel: byte, d: bytes, index: byte)
    requires Serves(pages, channel, d) && index <= MAX_LIST_INDEX
    ensures Collected(pages, index) == Some(Most(d, 16 * index, 1008 - 16 * index))
    decreases MAX_LIST_INDEX as int - index as int
  {
    hide Most, Page;
    if index == MAX_LIST_INDEX {
      NoneIsMost(d, 1008);
    } else {
      var off: nat := 16 * index as nat;
      var page := Most(d, off, 16);
      PageOf(channel, page);
      assert Page(pages, index) == PageRecords([channel] + page) by { OnePage(pages, channel, d, index); }
      MostJoins(d, off, 1008 - off);
      if |page| == 16 {
        PagesAreData(pages, channel, d, index + 1);
      }
    }
  }

  // ----- parsing -----

  /** The two highest bits of an algorithm byte tell what it is; 11b is skipped. */
  function AddAlg(r: SuiteRecord, b: byte): SuiteRecord
  {
    if b < 0x40 then r.(authAlg := b)
    else if b < 0x80 then r.(integrityAlgs := r.integrityAlgs + [b % 0x40])
    else if b < 0xC0 then r.(cryptAlgs := r.cryptAlgs + [b % 0x40])
    else r
  }

  predicate Starts(b: byte)
  {
    b == STANDARD || b == OEM
  }

  /** Algorithm bytes up to the next start of record; the record and where they end. */
  function ReadAlgs(data: bytes, offset: nat, r: SuiteRecord): (o: (SuiteRecord, nat))
    ensures o.1 >= offset
    decreases |data| - offset
  {
    if offset >= |data| || Starts(data[offset]) then (r, offset)
    else ReadAlgs(data, offset + 1, AddAlg(r, data[offset]))
  }

  function NewRecord(start: byte, id: byte, iana: uint32): SuiteRecord
  {
    SuiteRecord(start, id, iana, 0, [], [])
  }

  /** The records in front of the first malformed one, and whether there is none. */
  datatype Parsed = Parsed(records: seq<SuiteRecord>, ok: bool)

  function More(records: seq<SuiteRecord>, p: Parsed): Parsed
  {
    Parsed(records + p.records, p.ok)
  }

  /** Only one of the three IANA bytes is stepped over. */
  function Parse(data: bytes, offset: nat): Parsed
    decreases |data| - offset
  {
    if offset >= |data| then Parsed([], true)
    else if data[offset] == STANDARD then
      if offset + 4 > |data| - 1 then Parsed([], false)
      else
        var (r, next) := ReadAlgs(data, offset + 2, NewRecord(STANDARD, data[offset + 1], 0));
        More([r], Parse(data, next))
    else if data[offset] == OEM then
      if offset + 7 > |data| - 1 then Parsed([], false)
      else
        var (r, next) := ReadAlgs(data, offset + 3, NewRecord(OEM, data[offset + 1], U24At(data, offset + 2)));
        More([r], Parse(data, next))
    else Parsed([], false)
  }

  method ParseCipherSuitesData(data: bytes) returns (records: seq<SuiteRecord>, ok: bool)
    ensures Parsed(records, ok) == Parse(data, 0)
  {
    hide ReadAlgs, AddAlg;
    var offset := 0;
    records := [];
    assert More([], Parse(data, 0)) == Parse(data, 0) by { NoRecords(Parse(data, 0)); }
    while offset < |data|
      invariant Parse(data, 0) == More(records, Parse(data, offset))
      decreases |data| - offset
    {
      var start := data[offset];
      ghost var at := offset;
      var record: SuiteRecord;
      if start == STANDARD {
        if offset + 4 > |data| - 1 {
          assert records + [] == records;
          return records, false;
        }
        offset := offset + 1;
        record := NewRecord(start, data[offset], 0);
      } else if start == OEM {
        if offset + 7 > |data| - 1 {
          assert records + [] == records;
          return records, false;
        }
        offset := offset + 1;
        var id := data[offset];
        offset := offset + 1;
        record := NewRecord(start, id, U24At(data, offset));
      } else {
        assert records + [] == records;
        return records, false;
      }
      ghost var first, begun := offset + 1, record;
      record, offset := ReadAlgorithms(data, offset + 1, record);
      MoreRecords(records, record, Parse(data, offset));
      records := records + [record];
    }
    assert records + [] == records;
    ok := true;
  }

  /** The inner loop, which moves on before it looks. */
  method ReadAlgorithms(data: bytes, start: nat, begun: SuiteRecord) returns (record: SuiteRecord, offset: nat)
    ensures (record, offset) == ReadAlgs(data, start, begun)
  {
    hide AddAlg;
    offset := start;
    record := begun;
    while true
      invariant ReadAlgs(data, start, begun) == ReadAlgs(data, offset, record)
      decreases |data| - offset
    {
      if offset > |data| - 1 {
        break;
      }
      var algByte := data[offset];
      if algByte == STANDARD || algByte == OEM {
        break;
      }
      record := AddAlg(record, algByte);
      offset := offset + 1;
    }
  }

  lemma NoRecords(p: Parsed)
    ensures More([], p) == p
  {
    assert [] + p.records == p.records;
  }

  lemma MoreRecords(a: seq<SuiteRecord>, b: SuiteRecord, p: Parsed)
    ensures More(a + [b], p) == More(a, More([b], p))
  {
    assert (a + [b]) + p.records == a + ([b] + p.records);
  }

  // ----- records as a managed system writes them (section 22.15.1 of IPMI v2.0) -----

  datatype Entry = Entry(oem: bool, id: byte, iana: uint32, authAlg: SixBits,
                         integrityAlgs: seq<SixBits>, cryptAlgs: seq<SixBits>)

  function Tagged(tag: byte, algs: seq<SixBits>): (b: bytes)
    requires tag in {0x40, 0x80}
    ensures |b| == |algs|
  {
    seq(|algs|, i requires 0 <= i < |algs| => tag + algs[i])
  }

  function AlgBytes(e: Entry): bytes
  {
    [e.authAlg] + Tagged(0x40, e.integrityAlgs) + Tagged(0x80, e.cryptAlgs)
  }

  function Iana(e: Entry): (b: bytes)
    ensures |b| == 3
  {
    [e.iana % 0x100, e.iana / 0x100 % 0x100, e.iana / 0x1_0000 % 0x100]
  }

  function Serial(e: Entry): bytes
  {
    if e.oem then [OEM, e.id] + Iana(e) + AlgBytes(e) else [STANDARD, e.id] + AlgBytes(e)
  }

  function SerialAll(entries: seq<Entry>): bytes
  {
    if entries == [] then [] else Serial(entries[0]) + SerialAll(entries[1..])
  }

  /** A record by offset (section 22.15.1): C0h or C1h, the suite, the IANA number of an
      OEM suite, the authentication algorithm, and the others under their tags. */
  lemma RecordLayout(e: Entry)
    ensures var s, at, n := Serial(e), if e.oem then 5 else 2, |e.integrityAlgs|;
      && |s| == at + 1 + n + |e.cryptAlgs|
      && s[0] == (if e.oem then 0xc1 else 0xc0) && s[1] == e.id
      && (e.oem && e.iana < 0x100_0000 ==>
            s[2] as int + 0x100 * s[3] as int + 0x1_0000 * s[4] as int == e.iana)
      && s[at] == e.authAlg
      && (forall i :: 0 <= i < n ==> s[at + 1 + i] as int == 0x40 + e.integrityAlgs[i] as int)
      && (forall i :: 0 <= i < |e.cryptAlgs| ==> s[at + 1 + n + i] as int == 0x80 + e.cryptAlgs[i] as int)
  {
    hide Iana;
    if e.iana < 0x100_0000 {
      IanaBytes(e);
    }
  }

  lemma IanaBytes(e: Entry)
    requires e.iana < 0x100_0000
    ensures Iana(e)[0] as int + 0x100 * Iana(e)[1] as int + 0x1_0000 * Iana(e)[2] as int == e.iana
  {
    var q := e.iana / 0x100;
    assert e.iana / 0x1_0000 == q / 0x100 && q / 0x100 < 0x100;
  }

  function Expected(e: Entry): SuiteRecord
  {
    SuiteRecord(if e.oem then OEM else STANDARD, e.id, if e.oem then e.iana else 0, e.authAlg, e.integrityAlgs, e.cryptAlgs)
  }

  /** At least three algorithm bytes, and an IANA number of three bytes. */
  predicate Full(e: Entry)
  {
    |e.integrityAlgs| + |e.cryptAlgs| >= 2 && e.iana < 0x100_0000
  }

  /** The second and third IANA byte are taken for algorithm bytes. They do no
      harm below 40h, where the authentication algorithm overwrites them, and
      above C1h, where they are skipped. */
  predicate Harmless(e: Entry)
  {
    e.oem ==> Skipped(Iana(e)[1]) && Skipped(Iana(e)[2])
  }

  predicate Skipped(b: byte)
  {
    b < 0x40 || b > 0xC1
  }

  function AddAll(r: SuiteRecord, algs: bytes): SuiteRecord
    decreases |algs|
  {
    if algs == [] then r else AddAll(AddAlg(r, algs[0]), algs[1..])
  }

  predicate NoStart(algs: bytes)
  {
    forall i :: 0 <= i < |algs| ==> !Starts(algs[i])
  }

  /** Algorithm bytes followed by nothing or a start of record are all read. */
  lemma {:induction false} AlgsAreRead(before: bytes, algs: bytes, rest: bytes, r: SuiteRecord)
    requires NoStart(algs) && (rest == [] || Starts(rest[0]))
    ensures ReadAlgs(before + algs + rest, |before|, r) == (AddAll(r, algs), |before| + |algs|)
    decreases |algs|
  {
    hide AddAlg;
    var data := before + algs + rest;
    if algs == [] {
      assert data == before + rest;
    } else {
      assert data == (before + [algs[0]]) + algs[1..] + rest;
      assert data[|before|] == algs[0];
      AlgsAreRead(before + [algs[0]], algs[1..], rest, AddAlg(r, algs[0]));
    }
  }

  lemma {:induction false} AddAppend(r: SuiteRecord, a: bytes, b: bytes)
    ensures AddAll(r, a + b) == AddAll(AddAll(r, a), b)
    decreases |a|
  {
    hide AddAlg;
    if a == [] {
      assert a + b == b;
    } else {
      assert (a + b)[1..] == a[1..] + b;
      AddAppend(AddAlg(r, a[0]), a[1..], b);
    }
  }

  lemma {:induction false} AddTagged(r: SuiteRecord, tag: byte, algs: seq<SixBits>)
    requires tag in {0x40, 0x80}
    ensures AddAll(r, Tagged(tag, algs))
      == if tag == 0x40 then r.(integrityAlgs := r.integrityAlgs + algs) else r.(cryptAlgs := r.cryptAlgs + algs)
    ensures NoStart(Tagged(tag, algs))
    decreases |algs|
  {
    var b := Tagged(tag, algs);
    if algs == [] {
      assert r.integrityAlgs + algs == r.integrityAlgs && r.cryptAlgs + algs == r.cryptAlgs;
    } else {
      var next := AddAlg(r, b[0]);
      assert b[1..] == Tagged(tag, algs[1..]);
      AddTagged(next, tag, algs[1..]);
      assert algs == [algs[0]] + algs[1..];
      assert r.integrityAlgs + algs == (r.integrityAlgs + [algs[0]]) + algs[1..];
      assert r.cryptAlgs + algs == (r.cryptAlgs + [algs[0]]) + algs[1..];
    }
  }

  /** The algorithm bytes of an entry set the authentication algorithm and
      append the others in order. */
  lemma AddEntry(r: SuiteRecord, e: Entry)
    ensures AddAll(r, AlgBytes(e))
      == r.(authAlg := e.authAlg, integrityAlgs := r.integrityAlgs + e.integrityAlgs, cryptAlgs := r.cryptAlgs + e.cryptAlgs)
    ensures NoStart(AlgBytes(e))
  {
    hide Tagged;
    var ints, crypts := Tagged(0x40, e.integrityAlgs), Tagged(0x80, e.cryptAlgs);
    var s := r.(authAlg := e.authAlg);
    AddTagged(s, 0x40, e.integrityAlgs);
    AddTagged(s.(integrityAlgs := s.integrityAlgs + e.integrityAlgs), 0x80, e.cryptAlgs);
    AddAppend(r, [e.authAlg] + ints, crypts);
    AddAppend(r, [e.authAlg], ints);
    assert AddAll(r, [e.authAlg]) == s by { assert [e.authAlg][1..] == []; }
  }

  // ----- the round trip, and exactly when it holds -----

  lemma IanaAt(s: bytes, off: nat, n: uint32)
    requires n < 0x100_0000 && off + 3 <= |s|
    requires s[off] == n % 0x100 && s[off + 1] == n / 0x100 % 0x100 && s[off + 2] == n / 0x1_0000 % 0x100
    ensures U24At(s, off) == n
  {}

  /** The first record of some serialised entries: its numbers are right, and
      its algorithms are read from the bytes behind. */
  lemma FirstRecord(e: Entry, rest: bytes)
    requires Full(e)
    ensures var data := Serial(e) + rest;
      var (r, next) := ReadAlgs(data, if e.oem then 3 else 2, NewRecord(Expected(e).startOfRecord, e.id, Expected(e).oemIana));
      Parse(data, 0) == More([r], Parse(data, next))
  {
    hide ReadAlgs, AlgBytes;
    assert |AlgBytes(e)| >= 3 by { AlgCount(e); }
    var data := Serial(e) + rest;
    if e.oem {
      IanaAt(data, 2, e.iana);
    }
  }

  lemma AlgCount(e: Entry)
    ensures |AlgBytes(e)| == 1 + |e.integrityAlgs| + |e.cryptAlgs|
  {}

  /** Parsing does not look at what is in front of the offset. */
  lemma {:induction false} ReadAlgsShift(a: bytes, data: bytes, offset: nat, r: SuiteRecord)
    ensures var (s, next) := ReadAlgs(data, offset, r);
      ReadAlgs(a + data, |a| + offset, r) == (s, |a| + next)
    decreases |data| - offset
  {
    hide AddAlg;
    if offset < |data| && !Starts(data[offset]) {
      ReadAlgsShift(a, data, offset + 1, AddAlg(r, data[offset]));
    }
  }

  lemma {:induction false} ParseShift(a: bytes, data: bytes, offset: nat)
    ensures Parse(a + data, |a| + offset) == Parse(data, offset)
    decreases |data| - offset
  {
    hide ReadAlgs;
    if offset < |data| {
      if data[offset] == STANDARD && offset + 4 <= |data| - 1 {
        var r := NewRecord(STANDARD, data[offset + 1], 0);
        ReadAlgsShift(a, data, offset + 2, r);
        ParseShift(a, data, ReadAlgs(data, offset + 2, r).1);
      } else if data[offset] == OEM && offset + 7 <= |data| - 1 {
        var r := NewRecord(OEM, data[offset + 1], U24At(data, offset + 2));
        ReadAlgsShift(a, data, offset + 3, r);
        ParseShift(a, data, ReadAlgs(data, offset + 3, r).1);
      }
    }
  }

  predicate AllFull(entries: seq<Entry>)
  {
    forall i :: 0 <= i < |entries| ==> Full(entries[i])
  }

  predicate AllHarmless(entries: seq<Entry>)
  {
    forall i :: 0 <= i < |entries| ==> Harmless(entries[i])
  }

  function ExpectedAll(entries: seq<Entry>): seq<SuiteRecord>
  {
    seq(|entries|, i requires 0 <= i < |entries| => Expected(entries[i]))
  }

  lemma AddSkipped(r: SuiteRecord, x: byte, y: byte, e: Entry)
    requires Skipped(x) && Skipped(y) && r.integrityAlgs == [] && r.cryptAlgs == []
    ensures AddAll(r, [x, y] + AlgBytes(e))
      == r.(authAlg := e.authAlg, integrityAlgs := e.integrityAlgs, cryptAlgs := e.cryptAlgs)
  {
    hide AlgBytes;
    AddAppend(r, [x, y], AlgBytes(e));
    var s := AddAll(r, [x, y]);
    assert [x, y][1..] == [y] && [y][1..] == [];
    assert AddAll(r, [x, y]) == AddAll(AddAlg(r, x), [y]) == AddAll(AddAlg(AddAlg(r, x), y), []);
    AddEntry(s, e);
    assert [] + e.integrityAlgs == e.integrityAlgs && [] + e.cryptAlgs == e.cryptAlgs;
  }

  /** A harmless entry is read as it was written, and parsing goes on behind it. */
  lemma HarmlessIsRead(e: Entry, rest: bytes)
    requires Full(e) && Harmless(e) && (rest == [] || Starts(rest[0]))
    ensures Parse(Serial(e) + rest, 0) == More([Expected(e)], Parse(rest, 0))
  {
    hide ReadAlgs, AlgBytes, Parse, AddAll;
    FirstRecord(e, rest);
    var data := Serial(e) + rest;
    var r := NewRecord(Expected(e).startOfRecord, e.id, Expected(e).oemIana);
    AddEntry(r, e);
    if e.oem {
      var x, y := Iana(e)[1], Iana(e)[2];
      assert data == [OEM, e.id, Iana(e)[0]] + ([x, y] + AlgBytes(e)) + rest;
      AlgsAreRead([OEM, e.id, Iana(e)[0]], [x, y] + AlgBytes(e), rest, r);
      AddSkipped(r, x, y, e);
    } else {
      assert data == [STANDARD, e.id] + AlgBytes(e) + rest;
      AlgsAreRead([STANDARD, e.id], AlgBytes(e), rest, r);
      assert [] + e.integrityAlgs == e.integrityAlgs && [] + e.cryptAlgs == e.cryptAlgs;
    }
    ParseShift(Serial(e), rest, 0);
  }

  /** The algorithms of an entry whose IANA bytes do harm are read wrong. */
  lemma HarmIsVisible(e: Entry, rest: bytes)
    requires Full(e) && !Harmless(e) && (rest == [] || Starts(rest[0]))
    ensures var r := NewRecord(OEM, e.id, e.iana);
      ReadAlgs(Serial(e) + rest, 3, r).0 != Expected(e)
  {
    hide AlgBytes;
    var data, x, y := Serial(e) + rest, Iana(e)[1], Iana(e)[2];
    var r, algs := NewRecord(OEM, e.id, e.iana), AlgBytes(e);
    assert data[3] == x && data[4] == y;
    if !Starts(x) && !Starts(y) {
      assert data == [OEM, e.id, Iana(e)[0], x, y] + algs + rest;
      var s := AddAlg(AddAlg(r, x), y);
      AddEntry(s, e);
      AlgsAreRead([OEM, e.id, Iana(e)[0], x, y], algs, rest, s);
    }
  }

  lemma SerialStarts(entries: seq<Entry>)
    ensures SerialAll(entries) == [] || Starts(SerialAll(entries)[0])
  {
    if entries != [] {
      assert SerialAll(entries)[0] == Serial(entries[0])[0];
    }
  }

  /** Discovery reads back every list of records with at least three algorithm
      bytes each, with the algorithms in order, if and only if no OEM record
      has harmful IANA bytes. */
  lemma {:induction false} RecordsRoundTrip(entries: seq<Entry>)
    requires AllFull(entries)
    ensures Parse(SerialAll(entries), 0) == Parsed(ExpectedAll(entries), true) <==> AllHarmless(entries)
    decreases |entries|
  {
    hide Parse, ReadAlgs, Serial, Full, Harmless;
    if entries == [] {
      assert Parse([], 0) == Parsed([], true) by { NothingToParse(); }
    } else {
      var e, others := entries[0], entries[1..];
      var rest := SerialAll(others);
      SerialStarts(others);
      assert ExpectedAll(entries) == [Expected(e)] + ExpectedAll(others);
      assert forall i :: 0 <= i < |others| ==> others[i] == entries[i + 1];
      if Harmless(e) {
        HarmlessIsRead(e, rest);
        RecordsRoundTrip(others);
        assert Parse(SerialAll(entries), 0).records[1..] == Parse(rest, 0).records;
        assert ExpectedAll(entries)[1..] == ExpectedAll(others);
        AllButFirst(e, others);
        assert entries == [e] + others;
      } else {
        HarmIsVisible(e, rest);
        FirstRecord(e, rest);
        OnlyOemHarms(e);
        assert Parse(SerialAll(entries), 0).records[0] != Expected(e);
      }
    }
  }

  lemma OnlyOemHarms(e: Entry)
    ensures !Harmless(e) ==> e.oem
  {}

  lemma AllButFirst(e: Entry, others: seq<Entry>)
    ensures AllHarmless([e] + others) <==> Harmless(e) && AllHarmless(others)
  {
    hide Harmless;
    var all := [e] + others;
    assert all[0] == e;
    assert forall i :: 1 <= i < |all| ==> all[i] == others[i - 1];
    assert forall i :: 0 <= i < |others| ==> others[i] == all[i + 1];
  }

  lemma NothingToParse()
    ensures Parse([], 0) == Parsed([], true)
  {}

  // ----- the ids, whatever the IANA bytes are -----

  /** No IANA byte that is taken for an algorithm byte looks like a start of record. */
  predicate NoFalseStart(e: Entry)
  {
    e.oem ==> !Starts(Iana(e)[1]) && !Starts(Iana(e)[2])
  }

  predicate NoFalseStarts(entries: seq<Entry>)
  {
    forall i :: 0 <= i < |entries| ==> NoFalseStart(entries[i])
  }

  /** From within an entry, any offset at or behind the authentication byte:
      reading algorithms stops where the next entry starts. */
  lemma ReadsToEnd(before: bytes, e: Entry, k: nat, rest: bytes, r: SuiteRecord)
    requires k <= |AlgBytes(e)| && (rest == [] || Starts(rest[0]))
    ensures ReadAlgs(before + AlgBytes(e) + rest, |before| + k, r).1 == |before| + |AlgBytes(e)|
    ensures ReadAlgs(before + AlgBytes(e) + rest, |before| + k, r).0.id == r.id
  {
    hide AlgBytes, AddAlg;
    AddEntry(r, e);
    var algs := AlgBytes(e);
    assert before + algs + rest == (before + algs[..k]) + algs[k..] + rest;
    assert NoStart(algs[k..]);
    AlgsAreRead(before + algs[..k], algs[k..], rest, r);
    AddKeepsId(r, algs[k..]);
  }

  lemma {:induction false} AddKeepsId(r: SuiteRecord, algs: bytes)
    ensures AddAll(r, algs).id == r.id
    decreases |algs|
  {
    if algs != [] {
      AddKeepsId(AddAlg(r, algs[0]), algs[1..]);
    }
  }

  /** One step of the parser at a start of record. */
  lemma ParseStep(data: bytes, at: nat)
    requires at < |data| && Starts(data[at])
    ensures var n := if data[at] == STANDARD then 5 else 8;
      at + n > |data| ==> !Parse(data, at).ok
    ensures data[at] == STANDARD && at + 5 <= |data| ==>
      var (r, next) := ReadAlgs(data, at + 2, NewRecord(STANDARD, data[at + 1], 0));
      Parse(data, at) == More([r], Parse(data, next))
    ensures data[at] == OEM && at + 8 <= |data| ==>
      var (r, next) := ReadAlgs(data, at + 3, NewRecord(OEM, data[at + 1], U24At(data, at + 2)));
      Parse(data, at) == More([r], Parse(data, next))
  {
    hide ReadAlgs;
  }

  /** Parsing from a byte that looks like a start of record inside an entry ends,
      if it does not fail, with one record more, where the next entry starts. */
  lemma FalseStartEnds(before: bytes, e: Entry, y: bytes, rest: bytes)
    requires Full(e) && |y| <= 1 && (rest == [] || Starts(rest[0]))
    requires |before| > 0 && Starts(before[|before| - 1])
    ensures var data := before + y + AlgBytes(e) + rest;
      var p := Parse(data, |before| - 1);
      p.ok ==> exists r :: p == More([r], Parse(data, |before| + |y| + |AlgBytes(e)|))
  {
    hide ReadAlgs, AlgBytes, Parse, More;
    AlgCount(e);
    var data, at, prefix := before + y + AlgBytes(e) + rest, |before| - 1, before + y;
    assert data == prefix + AlgBytes(e) + rest;
    assert data[at] == before[at];
    ParseStep(data, at);
    if data[at] == STANDARD {
      ReadsToEnd(prefix, e, 1 - |y|, rest, NewRecord(STANDARD, data[at + 1], 0));
    } else if at + 8 <= |data| {
      ReadsToEnd(prefix, e, 2 - |y|, rest, NewRecord(OEM, data[at + 1], U24At(data, at + 2)));
    }
  }

  /** The records that are read of an entry: the first has its id, and there is
      another one only behind a false start. */
  ghost predicate ReadAs(e: Entry, records: seq<SuiteRecord>)
  {
    records != [] && records[0].id == e.id && (NoFalseStart(e) <==> |records| == 1)
  }

  /** If the parse of an entry and what follows does not fail, it reads the
      entry's id and goes on behind the entry, whatever the IANA bytes are;
      without a false start it fails only if what follows does. */
  lemma EntryIsRead(e: Entry, rest: bytes)
    requires Full(e) && (rest == [] || Starts(rest[0]))
    ensures var p := Parse(Serial(e) + rest, 0);
      && (p.ok ==> exists records :: ReadAs(e, records) && p == More(records, Parse(rest, 0)))
      && (NoFalseStart(e) ==> p.ok == Parse(rest, 0).ok)
  {
    hide ReadAlgs, AlgBytes, Parse;
    FirstRecord(e, rest);
    ParseShift(Serial(e), rest, 0);
    var data, start := Serial(e) + rest, if e.oem then 3 else 2;
    var begun := NewRecord(Expected(e).startOfRecord, e.id, Expected(e).oemIana);
    var (r, next) := ReadAlgs(data, start, begun);
    if !e.oem {
      assert data == [STANDARD, e.id] + AlgBytes(e) + rest;
      ReadsToEnd([STANDARD, e.id], e, 0, rest, begun);
      assert ReadAs(e, [r]);
    } else {
      OemIsRead(e, rest, begun);
    }
  }

  lemma OemIsRead(e: Entry, rest: bytes, begun: SuiteRecord)
    requires Full(e) && e.oem && (rest == [] || Starts(rest[0])) && begun.id == e.id
    requires var data := Serial(e) + rest; var (r, next) := ReadAlgs(data, 3, begun);
      Parse(data, 0) == More([r], Parse(data, next)) && Parse(data, |Serial(e)|) == Parse(rest, 0)
    ensures var p := Parse(Serial(e) + rest, 0);
      && (p.ok ==> exists records :: ReadAs(e, records) && p == More(records, Parse(rest, 0)))
      && (NoFalseStart(e) ==> p.ok == Parse(rest, 0).ok)
  {
    hide AlgBytes, Parse, AddAlg, ReadAlgs, ReadAs, Full, Serial, Iana, More;
    var data, x, y := Serial(e) + rest, Iana(e)[1], Iana(e)[2];
    var front := [OEM, e.id, Iana(e)[0]];
    var (r, next) := ReadAlgs(data, 3, begun);
    OemLayout(e, rest);
    FirstOemRecord(e, rest, begun);
    if Starts(x) {
      FalseStartAt(e, front + [x], [y], rest, r);
    } else if Starts(y) {
      FalseStartAt(e, front + [x, y], [], rest, r);
    } else {
      OnlyRecord(e, r);
    }
  }

  /** The bytes of an OEM entry, cut in front of and behind its last IANA byte. */
  lemma OemLayout(e: Entry, rest: bytes)
    requires e.oem
    ensures var data, x, y := Serial(e) + rest, Iana(e)[1], Iana(e)[2];
      var front := [OEM, e.id, Iana(e)[0]];
      && data == front + [x, y] + AlgBytes(e) + rest
      && data == (front + [x]) + [y] + AlgBytes(e) + rest
      && data == (front + [x, y]) + [] + AlgBytes(e) + rest
      && |Serial(e)| == 5 + |AlgBytes(e)|
  {
    hide AlgBytes, Iana;
    assert Iana(e) == [Iana(e)[0]] + [Iana(e)[1], Iana(e)[2]];
    assert Serial(e) + rest == [OEM, e.id] + Iana(e) + AlgBytes(e) + rest;
  }

  /** What is read of the first record of an OEM entry, and where that ends. */
  lemma FirstOemRecord(e: Entry, rest: bytes, begun: SuiteRecord)
    requires e.oem && (rest == [] || Starts(rest[0])) && begun.id == e.id
    ensures var (r, next) := ReadAlgs(Serial(e) + rest, 3, begun);
      && r.id == e.id
      && next == if Starts(Iana(e)[1]) then 3 else if Starts(Iana(e)[2]) then 4 else |Serial(e)|
  {
    hide AlgBytes, AddAlg, ReadAlgs, Serial, Iana;
    var data, x, y := Serial(e) + rest, Iana(e)[1], Iana(e)[2];
    OemLayout(e, rest);
    assert data[3] == x && data[4] == y;
    OneAlg(data, 3, begun);
    if !Starts(x) {
      OneKeepsId(begun, x);
      OneAlg(data, 4, AddAlg(begun, x));
      if !Starts(y) {
        OneKeepsId(AddAlg(begun, x), y);
        ReadsToEnd([OEM, e.id, Iana(e)[0], x, y], e, 0, rest, AddAlg(AddAlg(begun, x), y));
        assert [OEM, e.id, Iana(e)[0]] + [x, y] == [OEM, e.id, Iana(e)[0], x, y];
      }
    }
  }

  lemma OnlyRecord(e: Entry, r: SuiteRecord)
    requires r.id == e.id && NoFalseStart(e)
    ensures ReadAs(e, [r])
    ensures forall p :: More([r], p).ok == p.ok
  {}

  lemma OneAlg(data: bytes, offset: nat, r: SuiteRecord)
    requires offset < |data|
    ensures ReadAlgs(data, offset, r)
      == if Starts(data[offset]) then (r, offset) else ReadAlgs(data, offset + 1, AddAlg(r, data[offset]))
  {}

  lemma OneKeepsId(r: SuiteRecord, b: byte)
    ensures AddAlg(r, b).id == r.id
  {}

  lemma FalseStartAt(e: Entry, before: bytes, y: bytes, rest: bytes, r: SuiteRecord)
    requires Full(e) && |y| <= 1 && (rest == [] || Starts(rest[0])) && r.id == e.id && !NoFalseStart(e)
    requires |before| > 0 && Starts(before[|before| - 1])
    requires var data := before + y + AlgBytes(e) + rest;
      Parse(data, |before| + |y| + |AlgBytes(e)|) == Parse(rest, 0)
    ensures var data := before + y + AlgBytes(e) + rest;
      var p := More([r], Parse(data, |before| - 1));
      p.ok ==> exists records :: ReadAs(e, records) && p == More(records, Parse(rest, 0))
  {
    hide AlgBytes, Parse;
    FalseStartEnds(before, e, y, rest);
    var data := before + y + AlgBytes(e) + rest;
    var inner := Parse(data, |before| - 1);
    if inner.ok {
      var phantom :| inner == More([phantom], Parse(rest, 0));
      MoreRecords([r], phantom, Parse(rest, 0));
      assert ReadAs(e, [r] + [phantom]);
    }
  }

  /** A parse that does not fail contains every id that was written. It contains
      exactly those, and does not fail, if and only if there is no false start. */
  lemma {:induction false} IdsAreRead(entries: seq<Entry>)
    requires AllFull(entries)
    ensures var p := Parse(SerialAll(entries), 0);
      && (p.ok ==> forall i :: 0 <= i < |entries| ==> entries[i].id in Ids(p.records))
      && (p.ok ==> |p.records| >= |entries|)
      && (p.ok && Ids(p.records) == OfferedIds(entries) <==> NoFalseStarts(entries))
    decreases |entries|
  {
    hide Parse, Serial, Full, NoFalseStart, NoFalseStarts;
    if entries == [] {
      NothingToParse();
      NoEntries();
    } else {
      var e, others := entries[0], entries[1..];
      var rest := SerialAll(others);
      assert entries == [e] + others;
      assert forall i :: 0 <= i < |others| ==> others[i] == entries[i + 1];
      SerialStarts(others);
      EntryIsRead(e, rest);
      IdsAreRead(others);
      var p, q := Parse(SerialAll(entries), 0), Parse(rest, 0);
      assert OfferedIds(entries) == [e.id] + OfferedIds(others);
      if p.ok {
        var records :| ReadAs(e, records) && p == More(records, q);
        IdsJoin(records, q);
        assert forall i :: 1 <= i < |entries| ==> entries[i] == others[i - 1];
        if !NoFalseStart(e) {
          assert |Ids(p.records)| > |OfferedIds(entries)|;
        } else {
          assert Ids(p.records)[1..] == Ids(q.records) && OfferedIds(entries)[1..] == OfferedIds(others);
        }
      }
      FalseStartsOf(e, others);
    }
  }

  lemma NoEntries()
    ensures NoFalseStarts([])
  {}

  lemma FalseStartsOf(e: Entry, others: seq<Entry>)
    ensures NoFalseStarts([e] + others) <==> NoFalseStart(e) && NoFalseStarts(others)
  {
    hide NoFalseStart;
    var all := [e] + others;
    assert all[0] == e;
    assert forall i :: 1 <= i < |all| ==> all[i] == others[i - 1];
    assert forall i :: 0 <= i < |others| ==> others[i] == all[i + 1];
  }

  lemma IdsJoin(records: seq<SuiteRecord>, q: Parsed)
    ensures Ids(More(records, q).records) == Ids(records) + Ids(q.records)
    ensures |records| == 1 ==> Ids(records) == [records[0].id]
    ensures records != [] ==> records[0].id in Ids(records)
  {
    if records != [] {
      assert Ids(records)[0] == records[0].id;
    }
  }

  // ----- the order of preference -----

  const PREFERRED: seq<byte> := [17, 3, 15, 16, 18, 19, 6, 7, 8, 11, 12]

  function Picked(ids: seq<byte>, p: byte): seq<byte>
  {
    if ids == [] then []
    else Picked(ids[..|ids| - 1], p) + (if ids[|ids| - 1] == p then [p] else [])
  }

  function SortedBy(preferred: seq<byte>, ids: seq<byte>): seq<byte>
  {
    if preferred == [] then []
    else SortedBy(preferred[..|preferred| - 1], ids) + Picked(ids, preferred[|preferred| - 1])
  }

  method SortCipherSuites(ids: seq<byte>) returns (sorted: seq<byte>)
    ensures sorted == SortedBy(PREFERRED, ids)
  {
    sorted := [];
    for i := 0 to |PREFERRED|
      invariant sorted == SortedBy(PREFERRED[..i], ids)
    {
      assert PREFERRED[..i + 1][..i] == PREFERRED[..i];
      ghost var before := sorted;
      for k := 0 to |ids|
        invariant sorted == before + Picked(ids[..k], PREFERRED[i])
      {
        assert ids[..k + 1][..k] == ids[..k];
        if PREFERRED[i] == ids[k] {
          sorted := sorted + [ids[k]];
        }
      }
      assert ids[..|ids|] == ids;
    }
    assert PREFERRED[..|PREFERRED|] == PREFERRED;
  }

  lemma {:induction false} PickedCount(ids: seq<byte>, p: byte)
    ensures forall x :: multiset(Picked(ids, p))[x] == if x == p then multiset(ids)[p] else 0
    decreases |ids|
  {
    if ids != [] {
      var front, last := ids[..|ids| - 1], ids[|ids| - 1];
      PickedCount(front, p);
      assert ids == front + [last];
    }
  }

  predicate Distinct(s: seq<byte>)
  {
    forall i, j :: 0 <= i < j < |s| ==> s[i] != s[j]
  }

  /** The sorted suites are those of the input that are preferred, each as
      often as it was there. */
  lemma {:induction false} SortedCount(preferred: seq<byte>, ids: seq<byte>)
    requires Distinct(preferred)
    ensures forall x :: multiset(SortedBy(preferred, ids))[x] == if x in preferred then multiset(ids)[x] else 0
    decreases |preferred|
  {
    if preferred != [] {
      var front, last := preferred[..|preferred| - 1], preferred[|preferred| - 1];
      assert preferred == front + [last];
      assert last !in front;
      SortedCount(front, ids);
      PickedCount(ids, last);
    }
  }

  /** Where a suite stands in the order of preference. */
  function Rank(preferred: seq<byte>, id: byte): nat
  {
    if preferred == [] || preferred[0] == id then 0 else 1 + Rank(preferred[1..], id)
  }

  lemma {:induction false} RankAt(preferred: seq<byte>, i: nat)
    requires Distinct(preferred) && i < |preferred|
    ensures Rank(preferred, preferred[i]) == i
    decreases |preferred|
  {
    if i > 0 {
      RankAt(preferred[1..], i - 1);
    }
  }

  lemma {:induction false} PickedAre(ids: seq<byte>, p: byte)
    ensures forall x <- Picked(ids, p) :: x == p
    decreases |ids|
  {
    if ids != [] {
      PickedAre(ids[..|ids| - 1], p);
    }
  }

  predicate InOrder(preferred: seq<byte>, s: seq<byte>, n: nat)
  {
    && (forall i :: 0 <= i < |s| ==> Rank(preferred, s[i]) < n)
    && (forall i, j :: 0 <= i < j < |s| ==> Rank(preferred, s[i]) <= Rank(preferred, s[j]))
  }

  /** They stand in the order of preference. */
  lemma {:induction false} SortedInOrder(preferred: seq<byte>, ids: seq<byte>, n: nat)
    requires Distinct(preferred) && n <= |preferred|
    ensures InOrder(preferred, SortedBy(preferred[..n], ids), n)
    decreases n
  {
    if n > 0 {
      var p := preferred[n - 1];
      assert preferred[..n][..n - 1] == preferred[..n - 1];
      SortedInOrder(preferred, ids, n - 1);
      PickedAre(ids, p);
      RankAt(preferred, n - 1);
      var a, b := SortedBy(preferred[..n - 1], ids), Picked(ids, p);
      assert SortedBy(preferred[..n], ids) == a + b;
      assert forall i :: 0 <= i < |b| ==> b[i] in b;
      OrderJoins(preferred, a, b, n);
    }
  }

  lemma OrderJoins(preferred: seq<byte>, a: seq<byte>, b: seq<byte>, n: nat)
    requires n > 0 && InOrder(preferred, a, n - 1)
    requires forall i :: 0 <= i < |b| ==> Rank(preferred, b[i]) == n - 1
    ensures InOrder(preferred, a + b, n)
  {}

  /** In order of preference: a suite that stands earlier in the list comes first. */
  lemma InOrderMeans(preferred: seq<byte>, s: seq<byte>, i: nat, j: nat, p: nat, q: nat)
    requires Distinct(preferred) && InOrder(preferred, s, |preferred|) && p < q < |preferred|
    requires i < |s| && j < |s| && s[i] == preferred[p] && s[j] == preferred[q]
    ensures i < j
  {
    hide Rank, Distinct;
    RankAt(preferred, p);
    RankAt(preferred, q);
  }

  // ----- the whole of discovery -----

  function Ids(records: seq<SuiteRecord>): seq<byte>
  {
    seq(|records|, i requires 0 <= i < |records| => records[i].id)
  }

  /** When the data cannot be had or does not parse, all preferred suites are tried. */
  function BestSuites(pages: Pages): seq<byte>
  {
    match Collected(pages, 0)
    case None => PREFERRED
    case Some(data) =>
      var p := Parse(data, 0);
      if p.ok then SortedBy(PREFERRED, Ids(p.records)) else PREFERRED
  }

  method FindBestCipherSuites(pages: Pages) returns (best: seq<byte>)
    ensures best == BestSuites(pages)
  {
    var data := CollectPages(pages);
    if data.None? {
      return PREFERRED;
    }
    var records, ok := ParseCipherSuitesData(data.value);
    assert Parse(data.value, 0) == Parsed(records, ok);
    if !ok {
      return PREFERRED;
    }
    var ids := new byte[|records|](_ => 0);
    for i := 0 to |records|
      invariant ids[..i] == Ids(records)[..i]
    {
      ids[i] := records[i].id;
    }
    assert ids[..] == Ids(records);
    best := SortCipherSuites(ids[..]);
  }

  function OfferedIds(entries: seq<Entry>): seq<byte>
  {
    seq(|entries|, i requires 0 <= i < |entries| => entries[i].id)
  }

  /** Against a managed system that serves at most 1008 bytes of well-formed
      records, none with a false start, discovery yields the preferred ones of
      the offered suites, in order of preference and each as often as it was
      offered. */
  lemma DiscoveryFindsOffered(pages: Pages, channel: byte, entries: seq<Entry>)
    requires AllFull(entries) && NoFalseStarts(entries) && |SerialAll(entries)| <= 1008
    requires Serves(pages, channel, SerialAll(entries))
    ensures var best, preferred := BestSuites(pages), [17, 3, 15, 16, 18, 19, 6, 7, 8, 11, 12];
      && (forall x :: multiset(best)[x] == if x in preferred then multiset(OfferedIds(entries))[x] else 0)
      && InOrder(preferred, best, 11)
  {
    hide Parse, SerialAll, Serves, AllFull, NoFalseStarts, BestSuites, Ids, OfferedIds, SortedBy, InOrder;
    DiscoveryParses(pages, channel, entries);
    IdsAreRead(entries);
    SortedCount(PREFERRED, OfferedIds(entries));
    SortedInOrder(PREFERRED, OfferedIds(entries), |PREFERRED|);
    assert PREFERRED[..|PREFERRED|] == PREFERRED;
  }

  lemma DiscoveryParses(pages: Pages, channel: byte, entries: seq<Entry>)
    requires |SerialAll(entries)| <= 1008 && Serves(pages, channel, SerialAll(entries))
    ensures var p := Parse(SerialAll(entries), 0);
      BestSuites(pages) == if p.ok then SortedBy(PREFERRED, Ids(p.records)) else PREFERRED
  {
    hide Parse, Collected, SerialAll, Serves, SortedBy;
    var d := SerialAll(entries);
    PagesAreData(pages, channel, d, 0);
    assert Most(d, 0, 1008) == d;
  }

  /** Without an answer to every page, or when a record does not parse, the
      preferred suites are tried one after the other. */
  lemma FallbackIsPreferred(pages: Pages)
    ensures Collected(pages, 0).None? || !Parse(Collected(pages, 0).value, 0).ok
      ==> BestSuites(pages) == [17, 3, 15, 16, 18, 19, 6, 7, 8, 11, 12]
  {
    hide Collected, Parse, SortedBy;
  }

  /** Whatever the IANA bytes are, every preferred suite that is offered is tried. */
  lemma OfferedIsTried(pages: Pages, channel: byte, entries: seq<Entry>, k: nat)
    requires AllFull(entries) && |SerialAll(entries)| <= 1008
    requires Serves(pages, channel, SerialAll(entries))
    requires k < |entries|
    ensures entries[k].id in PREFERRED ==> entries[k].id in BestSuites(pages)
  {
    hide Parse, SerialAll, Serves, AllFull, SortedBy, BestSuites, NoFalseStarts;
    DiscoveryParses(pages, channel, entries);
    IdsAreRead(entries);
    var p, id := Parse(SerialAll(entries), 0), entries[k].id;
    if p.ok {
      var ids := Ids(p.records);
      SortedCount(PREFERRED, ids);
      if id in PREFERRED {
        assert multiset(SortedBy(PREFERRED, ids))[id] == multiset(ids)[id] > 0;
      }
    }
  }

  /** Four of the preferred suites are not connectable: 15 and 6 have no
      integrity algorithm, and 11 and 12 the MD5-128 one, for which no check value
      of RAKP Message 4 is computed. */
  lemma PreferredConnectable(id: byte)
    requires id in PREFERRED
    ensures Connectable(SuiteAlgorithms(id)) <==> id !in {15, 6, 11, 12}
  {}

  /** Trying a preferred suite with a managed system that follows the
      specification and shares the user key succeeds unless it is one of those
      four. With one that grants other algorithms than it is asked for it may
      succeed all the same: see `Handshake.SuiteIsNotAlwaysKept`. */
  lemma PreferredConnects(e: Env, b: Rakp.Bmc, l: Link, id: byte)
    requires |e.username| < 0x100 && b.kuid == Rakp.Kuid(e.password) && b.kg == l.v20.bmcKey
    requires id in PREFERRED && FollowsSpec(e, b, SuiteAlgorithms(id))
    ensures TrySuite(e, l, id).1 <==> id !in {15, 6, 11, 12}
  {
    hide TrySuite, GrantsAt, SuiteAlgorithms, Connectable, SentKeysAgree;
    PreferredConnectable(id);
    AttemptAgrees(e, b, l, id);
  }

  /** Discovery and the handshake together: a client without a suite of its own
      always connects to a managed system that offers a connectable preferred
      suite, in at most 1008 bytes of records, and answers it to specification
      with the same user key. A client that has called Connect20 before has a
      suite: see module Retries. */
  lemma OfferedSuiteConnects(e: Env, b: Rakp.Bmc, l: Link, pages: Pages, channel: byte, entries: seq<Entry>, k: nat)
    requires AllFull(entries) && |SerialAll(entries)| <= 1008
    requires Serves(pages, channel, SerialAll(entries))
    requires |e.username| < 0x100 && b.kuid == Rakp.Kuid(e.password) && b.kg == l.v20.bmcKey
    requires l.v20.cipherSuiteID == CIPHER_SUITE_RESERVED
    requires k < |entries|
    ensures var a, (l', success) := SuiteAlgorithms(entries[k].id), Handshake.Connect(e, l, BestSuites(pages));
      entries[k].id in PREFERRED && Connectable(a) && FollowsSpec(e, b, a) ==> success && l'.v20.state == Active
  {
    hide BestSuites, FollowsSpec, Serves, AllFull, SerialAll, TrySuites, Authenticated, SentKeysAgree;
    OfferedIsTried(pages, channel, entries, k);
    ConnectAgrees(e, b, l, BestSuites(pages));
    LoopIsSafe(e, l, BestSuites(pages));
  }
}
