/** The fields of FRU chassis, board and product areas (types_fru.go): a number
    of fixed type/length fields, custom fields up to the end mark, unused bytes
    and a checksum. */
module FruArea {
  import opened Bytes
  import opened TypeLengthField

  const END_MARK: byte := 0xC1

  /** Areas are at most 2040 bytes long; 16-bit offsets reach every byte. */
  type AreaData = s: bytes | |s| < 0x1_0000

  datatype Field = Field(next: uint16, typeLength: byte, text: bytes)

  /** offset + 1 is added up in sixteen bits. */
  function FieldAt(data: AreaData, offset: uint16): (r: Outcome<Field>)
    ensures r.Ok? ==> r.value.next as int == offset + Length(r.value.typeLength) as int + 1 <= |data|
  {
    if |data| < (offset + 1) % 0x1_0000 then Err
    else if offset >= |data| then Panic
    else
      var tl := data[offset];
      var end := offset + Length(tl) as int + 1;
      if |data| < end then Err else Ok(Field(end, tl, Text(tl, data[offset + 1..end]).value))
  }

  datatype Parsed = Parsed(custom: seq<bytes>, unused: bytes, checksum: byte)

  /** The custom fields, and the offset at which the loop stops: at the end
      mark, or behind a field without content. */
  function Customs(data: AreaData, offset: uint16): (r: Outcome<(seq<bytes>, uint16)>)
    ensures r.Ok? ==> offset <= r.value.1 <= |data|
    decreases |data| - offset
  {
    if offset >= |data| then Panic
    else if data[offset] == END_MARK then Ok(([], offset))
    else
      match FieldAt(data, offset)
      case Err => Err
      case Panic => Panic
      case Ok(f) =>
        if f.text == [] then Ok(([], f.next))
        else
          match Customs(data, f.next)
          case Err => Err
          case Panic => Panic
          case Ok((rest, stop)) => Ok(([f.text] + rest, stop))
  }

  /** Everything behind the byte at the stop but the last byte is unused. */
  function Remainder(data: AreaData, custom: seq<bytes>, stop: uint16): Outcome<Parsed>
  {
    if stop + 2 > |data| then Panic else Ok(Parsed(custom, data[stop + 1..|data| - 1], data[|data| - 1]))
  }

  function ParseTail(data: AreaData, offset: uint16): Outcome<Parsed>
  {
    if |data| < (offset + 1) % 0x1_0000 then Err
    else
      match Customs(data, offset)
      case Err => Err
      case Panic => Panic
      case Ok((custom, stop)) => Remainder(data, custom, stop)
  }

  method GetFRUTypeLengthField(data: AreaData, offset: uint16) returns (r: Outcome<Field>)
    ensures r == FieldAt(data, offset)
  {
    if |data| < (offset + 1) % 0x1_0000 {
      return Err;
    }
    if offset >= |data| {
      return Panic;
    }
    var typeLength := data[offset];
    var length := Length(typeLength) as int;
    if |data| < offset + length + 1 {
      return Err;
    }
    var dataStart := offset + 1;
    var dataEnd := dataStart + length;
    var text := Chars(typeLength, data[dataStart..dataEnd]);
    r := Ok(Field((offset + length + 1) % 0x1_0000, typeLength, text.value));
  }

  function Prepend(custom: seq<bytes>, r: Outcome<(seq<bytes>, uint16)>): Outcome<(seq<bytes>, uint16)>
  {
    match r
    case Err => Err
    case Panic => Panic
    case Ok((rest, stop)) => Ok((custom + rest, stop))
  }

  lemma PrependTwice(a: seq<bytes>, b: bytes, r: Outcome<(seq<bytes>, uint16)>)
    ensures Prepend(a + [b], r) == Prepend(a, Prepend([b], r))
    ensures Prepend([], r) == r
  {
    if r.Ok? {
      assert (a + [b]) + r.value.0 == a + ([b] + r.value.0);
      assert [] + r.value.0 == r.value.0;
    }
  }

  method GetFRUCustomUnusedChecksumFields(data: AreaData, start: uint16) returns (r: Outcome<Parsed>)
    ensures r == ParseTail(data, start)
  {
    hide FieldAt;
    if |data| < (start + 1) % 0x1_0000 {
      return Err;
    }
    var custom: seq<bytes>, offset: uint16 := [], start;
    PrependTwice([], [], Customs(data, start));
    while true
      invariant Customs(data, start) == Prepend(custom, Customs(data, offset))
      decreases |data| - offset
    {
      if offset >= |data| {
        return Panic;
      }
      if data[offset] == END_MARK {
        break;
      }
      var f := GetFRUTypeLengthField(data, offset);
      match f {
        case Err => return Err;
        case Panic => return Panic;
        case Ok(field) =>
          ghost var at := offset;
          offset := field.next;
          if |field.text| == 0 {
            assert Customs(data, at) == Ok(([], offset));
            assert Customs(data, start) == Ok((custom, offset)) by { assert custom + [] == custom; }
            r := Remainder(data, custom, offset);
            return;
          }
          PrependTwice(custom, field.text, Customs(data, offset));
          custom := custom + [field.text];
      }
    }
    assert custom + [] == custom;
    r := Remainder(data, custom, offset);
  }

  // ----- fields as they are written -----

  datatype Coded = Coded(typeLength: byte, raw: bytes)

  /** The type/length byte gives the number of bytes. */
  type Fitting = f: Coded | |f.raw| == Length(f.typeLength) as nat witness Coded(0, [])

  /** Custom fields of a well-formed area: not empty, and not the end mark. */
  predicate AllCustom(fields: seq<Fitting>)
  {
    forall i :: 0 <= i < |fields| ==> fields[i].raw != [] && fields[i].typeLength != END_MARK
  }

  function Encode(fields: seq<Fitting>): bytes
    decreases |fields|
  {
    if fields == [] then [] else [fields[0].typeLength] + fields[0].raw + Encode(fields[1..])
  }

  function TextOf(f: Fitting): (t: bytes)
    ensures t == [] <==> f.raw == []
  {
    TextIsThere(f);
    Text(f.typeLength, f.raw).value
  }

  lemma TextIsThere(f: Fitting)
    ensures Text(f.typeLength, f.raw).Some?
    ensures Text(f.typeLength, f.raw).value == [] <==> f.raw == []
  {
    hide Group;
  }

  function Texts(fields: seq<Fitting>): (t: seq<bytes>)
    ensures |t| == |fields|
  {
    seq(|fields|, i requires 0 <= i < |fields| => TextOf(fields[i]))
  }

  lemma NoFields()
    ensures Encode([]) == [] && Texts([]) == [] && AllCustom([])
  {}

  lemma OneMoreField(c: Fitting, fields: seq<Fitting>)
    ensures Encode([c] + fields) == [c.typeLength] + c.raw + Encode(fields)
    ensures Texts([c] + fields) == [TextOf(c)] + Texts(fields)
    ensures AllCustom([c] + fields) <==> c.raw != [] && c.typeLength != END_MARK && AllCustom(fields)
  {
    var all := [c] + fields;
    assert all[1..] == fields;
    assert AllCustom(all) ==> forall i :: 0 <= i < |fields| ==> fields[i] == all[i + 1];
    assert forall i :: 1 <= i < |all| ==> all[i] == fields[i - 1];
  }

  lemma Regroup(before: bytes, tl: byte, raw: bytes, others: bytes, rest: bytes)
    ensures before + ([tl] + raw + others) + rest == before + ([tl] + raw + (others + rest))
    ensures before + ([tl] + raw + others) + rest == before + [tl] + raw + others + rest
  {}

  lemma FieldIsRead(before: bytes, f: Fitting, rest: bytes)
    requires |before| + 1 + |f.raw| + |rest| < 0x1_0000
    ensures var data := before + ([f.typeLength] + f.raw + rest);
      FieldAt(data, |before|) == Ok(Field(|before| + 1 + |f.raw|, f.typeLength, TextOf(f)))
  {
    hide Text;
    var data := before + ([f.typeLength] + f.raw + rest);
    assert data[|before|] == f.typeLength;
    assert data[|before| + 1..|before| + 1 + |f.raw|] == f.raw;
  }

  /** Custom fields followed by anything: the fields are read in order, and
      reading goes on behind them. */
  lemma {:induction false} CustomsAreRead(before: bytes, fields: seq<Fitting>, rest: bytes)
    requires AllCustom(fields) && |before| + |Encode(fields)| + |rest| < 0x1_0000
    ensures var data := before + Encode(fields) + rest;
      Customs(data, |before|) == Prepend(Texts(fields), Customs(data, |before| + |Encode(fields)|))
    decreases |fields|
  {
    hide FieldAt, TextOf, Encode, Texts, Prepend, Length;
    NoFields();
    var data := before + Encode(fields) + rest;
    if fields == [] {
      assert fields == [];
      NoneRead(data, |before|);
    } else {
      var f, others := fields[0], fields[1..];
      assert fields == [f] + others;
      OneMoreField(f, others);
      var next := before + [f.typeLength] + f.raw;
      Regroup(before, f.typeLength, f.raw, Encode(others), rest);
      FieldIsRead(before, f, Encode(others) + rest);
      CustomsAreRead(next, others, rest);
      CustomIsRead(data, |before|, f);
      PrependBoth(TextOf(f), Texts(others), Customs(data, |before| + |Encode(fields)|));
    }
  }

  lemma CustomIsRead(data: AreaData, offset: uint16, f: Fitting)
    requires offset + 1 + |f.raw| < 0x1_0000 && offset < |data|
    requires FieldAt(data, offset) == Ok(Field(offset + 1 + |f.raw|, f.typeLength, TextOf(f)))
    requires data[offset] == f.typeLength != END_MARK && f.raw != []
    ensures Customs(data, offset) == Prepend([TextOf(f)], Customs(data, offset + 1 + |f.raw|))
  {
    hide FieldAt, Text, Length;
  }

  lemma NoneRead(data: AreaData, offset: uint16)
    ensures Customs(data, offset) == Prepend(Texts([]), Customs(data, offset))
  {
    hide Customs;
    PrependTwice([], [], Customs(data, offset));
    assert Texts([]) == [];
  }

  lemma PrependBoth(a: bytes, b: seq<bytes>, r: Outcome<(seq<bytes>, uint16)>)
    ensures Prepend([a] + b, r) == Prepend([a], Prepend(b, r))
  {
    if r.Ok? {
      assert ([a] + b) + r.value.0 == [a] + (b + r.value.0);
    }
  }

  /** Custom fields, the end mark, unused bytes and a checksum come back as
      they were written. */
  lemma FieldsRoundTrip(before: bytes, fields: seq<Fitting>, unused: bytes, checksum: byte)
    requires AllCustom(fields) && |before| + |Encode(fields)| + 2 + |unused| < 0x1_0000
    ensures ParseTail(before + Encode(fields) + ([END_MARK] + unused + [checksum]), |before|)
      == Ok(Parsed(Texts(fields), unused, checksum))
  {
    hide FieldAt, Texts, Encode;
    var rest := [END_MARK] + unused + [checksum];
    var data, stop := before + Encode(fields) + rest, |before| + |Encode(fields)|;
    CustomsAreRead(before, fields, rest);
    StopsAtMark(data, stop);
    assert Texts(fields) + [] == Texts(fields);
    assert data[stop + 1..|data| - 1] == unused;
  }

  /** Not empty, and not an 8-bit text of one character, whose type/length byte is
      the end mark. */
  predicate IsCustom(w: Written)
  {
    w.text != [] && !(w.EightBit? && |w.text| == 1)
  }

  predicate AreCustom(texts: seq<Writable>)
  {
    forall w <- texts :: IsCustom(w)
  }

  function Area(texts: seq<Writable>): bytes
    decreases |texts|
  {
    if texts == [] then [] else [WrittenType(texts[0])] + WrittenBytes(texts[0]) + Area(texts[1..])
  }

  function AllReadBack(texts: seq<Writable>): (t: seq<bytes>)
    ensures |t| == |texts|
  {
    seq(|texts|, i requires 0 <= i < |texts| => ReadBack(texts[i]))
  }

  /** Texts written as custom fields, in any of the four encodings, come back as
      the texts themselves, in order, with the unused bytes and the checksum, if
      and only if none is empty or an 8-bit text of one character. */
  lemma TailRoundTrip(before: bytes, texts: seq<Writable>, unused: bytes, checksum: byte)
    requires |before| + |Area(texts)| + 2 + |unused| < 0x1_0000
    ensures AreCustom(texts) <==>
      ParseTail(before + Area(texts) + ([0xc1] + unused + [checksum]), |before|)
      == Ok(Parsed(AllReadBack(texts), unused, checksum))
  {
    hide Encode, Texts, AllCustom, AreCustom, Customs, AllReadBack;
    var rest := [END_MARK] + unused + [checksum];
    if AreCustom(texts) {
      var fields := FieldsOf(texts);
      FieldsRoundTrip(before, fields, unused, checksum);
    } else {
      FewerComeBack(before, texts, rest);
    }
  }

  /** The fields that hold the texts. */
  lemma {:induction false} FieldsOf(texts: seq<Writable>) returns (fields: seq<Fitting>)
    requires AreCustom(texts)
    ensures AllCustom(fields) && Encode(fields) == Area(texts) && Texts(fields) == AllReadBack(texts)
    decreases |texts|
  {
    hide Text, WrittenBytes, Encode, Texts, AllCustom, TextOf, IsCustom;
    NoFields();
    if texts == [] {
      fields := [];
    } else {
      var rest := FieldsOf(texts[1..]);
      var f := FieldOf(texts[0]);
      assert IsCustom(texts[0]);
      fields := [f] + rest;
      OneMoreField(f, rest);
      assert AllReadBack(texts) == [ReadBack(texts[0])] + AllReadBack(texts[1..]);
    }
  }

  lemma FieldOf(w: Writable) returns (f: Fitting)
    ensures f == Coded(WrittenType(w), WrittenBytes(w)) && TextOf(f) == ReadBack(w)
    ensures f.raw != [] && f.typeLength != END_MARK <==> IsCustom(w)
  {
    hide Text, WrittenType, WrittenBytes, ReadBack;
    WrittenIsRead(w);
    WrittenLength(w);
    f := Coded(WrittenType(w), WrittenBytes(w));
  }

  /** A text that is no custom field ends the fields before it is read. */
  lemma {:induction false} FewerComeBack(before: bytes, texts: seq<Writable>, rest: bytes)
    requires !AreCustom(texts) && |before| + |Area(texts)| + |rest| < 0x1_0000
    ensures var r := Customs(before + Area(texts) + rest, |before|);
      r.Ok? ==> |r.value.0| < |texts|
    decreases |texts|
  {
    hide FieldAt, TextOf, Customs, Length, IsCustom;
    var data, w, others := before + Area(texts) + rest, texts[0], texts[1..];
    var f := FieldOf(w);
    var next := before + [f.typeLength] + f.raw;
    Regroup(before, f.typeLength, f.raw, Area(others), rest);
    FieldIsRead(before, f, Area(others) + rest);
    if IsCustom(w) {
      FewerComeBack(next, others, rest);
      CustomIsRead(data, |before|, f);
    } else {
      NoCustomIsRead(data, |before|, f);
    }
  }

  lemma NoCustomIsRead(data: AreaData, offset: uint16, f: Fitting)
    requires offset + 1 + |f.raw| < 0x1_0000 && offset < |data|
    requires FieldAt(data, offset) == Ok(Field(offset + 1 + |f.raw|, f.typeLength, TextOf(f)))
    requires data[offset] == f.typeLength && (f.raw == [] || f.typeLength == END_MARK)
    ensures Customs(data, offset).Ok? ==> Customs(data, offset).value.0 == []
  {
    hide FieldAt, Text, Length;
  }

  lemma StopsAtMark(data: AreaData, stop: uint16)
    requires stop < |data| && data[stop] == END_MARK
    ensures Customs(data, stop) == Ok(([], stop))
  {}

  // ----- exactly when the parser panics -----

  /** No custom field starts here: the end of the data, the end mark, a field
      without content, or one that is cut short. */
  predicate AtEnd(rest: bytes)
  {
    rest == [] || rest[0] == END_MARK || Length(rest[0]) == 0 || |rest| < Length(rest[0]) as nat + 1
  }

  /** What is left of the data behind its custom fields. */
  function Rest(data: bytes): (rest: bytes)
    ensures AtEnd(rest)
    decreases |data|
  {
    if AtEnd(data) then data else Rest(data[Length(data[0]) as nat + 1..])
  }

  /** Nothing, an end mark as the last byte, or a field without content with
      fewer than two bytes behind it. */
  predicate TooShort(rest: bytes)
  {
    || rest == []
    || (rest[0] == END_MARK && |rest| < 2)
    || (Length(rest[0]) == 0 && |rest| < 3)
  }

  /** How the loop over the custom fields ends, and where. */
  lemma {:induction false} CustomsEndAtRest(data: AreaData, offset: uint16)
    requires offset <= |data|
    ensures var rest, r := Rest(data[offset..]), Customs(data, offset);
      && |rest| <= |data|
      && (rest == [] ==> r == Panic)
      && (rest != [] && rest[0] == END_MARK ==> r.Ok? && r.value.1 as int == |data| - |rest|)
      && (rest != [] && Length(rest[0]) == 0 ==> r.Ok? && r.value.1 as int == |data| - |rest| + 1)
      && (rest != [] && rest[0] != END_MARK && Length(rest[0]) > 0 ==> r == Err)
    decreases |data| - offset
  {
    hide Text;
    var left := data[offset..];
    if left == [] {
    } else if AtEnd(left) {
      OneFieldAt(data, offset);
    } else {
      OneFieldAt(data, offset);
      var next := offset as int + Length(data[offset]) as int + 1;
      assert left[Length(left[0]) as nat + 1..] == data[next..];
      CustomsEndAtRest(data, next);
    }
  }

  /** A field is read, with content exactly if its length is not 0, or cut short. */
  lemma OneFieldAt(data: AreaData, offset: uint16)
    requires offset < |data|
    ensures var end := offset as int + Length(data[offset]) as int + 1;
      if |data| < end then FieldAt(data, offset) == Err
      else FieldAt(data, offset).Ok? && FieldAt(data, offset).value.next == end
           && (FieldAt(data, offset).value.text == [] <==> Length(data[offset]) == 0)
  {
    var end := offset as int + Length(data[offset]) as int + 1;
    if end <= |data| {
      TextIsThere(Coded(data[offset], data[offset + 1..end]));
    }
  }

  /** For every data and every offset: the parser panics if and only if the
      offset is the last 16-bit number, or what the custom fields leave of the
      data is too short. */
  lemma PanicsExactly(data: AreaData, offset: uint16)
    ensures ParseTail(data, offset) == Panic
      <==> offset == 0xffff || (offset < |data| && TooShort(Rest(data[offset..])))
  {
    hide Customs, FieldAt, Rest;
    if offset < |data| {
      CustomsEndAtRest(data, offset);
    } else if offset == 0xffff {
      PastEndPanics(data, offset);
    }
  }

  lemma PastEndPanics(data: AreaData, offset: uint16)
    requires offset >= |data|
    ensures Customs(data, offset) == Panic
  {}

  /** Encoded custom fields leave what stands behind them. */
  lemma {:induction false} FieldsLeaveRest(fields: seq<Fitting>, rest: bytes)
    requires AllCustom(fields) && AtEnd(rest)
    ensures Rest(Encode(fields) + rest) == rest
    decreases |fields|
  {
    hide AllCustom;
    if fields == [] {
      assert Encode(fields) + rest == rest;
    } else {
      var f, others := fields[0], fields[1..];
      assert fields == [f] + others;
      OneMoreField(f, others);
      var data := Encode(fields) + rest;
      assert data[|f.raw| + 1..] == Encode(others) + rest;
      FieldsLeaveRest(others, rest);
    }
  }

  /** Custom fields followed by anything but another custom field: the parser
      panics if and only if that is too short. */
  lemma MissingEndPanics(before: bytes, fields: seq<Fitting>, rest: bytes)
    requires AllCustom(fields) && AtEnd(rest) && (fields != [] || rest != [])
    requires |before| + |Encode(fields)| + |rest| < 0x1_0000
    ensures ParseTail(before + Encode(fields) + rest, |before|) == Panic <==> TooShort(rest)
  {
    hide AllCustom, ParseTail, Rest, TooShort;
    var data := before + Encode(fields) + rest;
    assert data[|before|..] == Encode(fields) + rest;
    FieldsLeaveRest(fields, rest);
    PanicsExactly(data, |before|);
  }

  // ----- conservation -----

  /** The fields the loop goes through before it stops. */
  function FieldsRead(data: AreaData, offset: uint16): (fields: seq<Fitting>)
    requires Customs(data, offset).Ok?
    decreases |data| - offset
  {
    if data[offset] == END_MARK then []
    else
      var f := FieldAt(data, offset).value;
      if f.text == [] then [] else [Coded(f.typeLength, data[offset + 1..f.next])] + FieldsRead(data, f.next)
  }

  lemma FieldBytes(data: AreaData, offset: uint16)
    requires offset < |data| && FieldAt(data, offset).Ok?
    ensures var f := FieldAt(data, offset).value;
      var c: Fitting := Coded(f.typeLength, data[offset + 1..f.next]);
      && data[offset..f.next] == [f.typeLength] + c.raw
      && f.text == TextOf(c) && f.typeLength == data[offset]
  {
    hide Text;
  }

  /** Every byte in front of the stop belongs to exactly one of the fields that
      were read, in order; a field without content that stops the loop has one
      more byte. */
  lemma {:induction false} CustomsAreConserved(data: AreaData, offset: uint16)
    requires Customs(data, offset).Ok?
    ensures var (custom, stop) := Customs(data, offset).value;
      var fields := FieldsRead(data, offset);
      var end := offset as int + |Encode(fields)|;
      && AllCustom(fields) && custom == Texts(fields)
      && end < |data| && data[offset..end] == Encode(fields)
      && (if data[end] == END_MARK then stop == end else Length(data[end]) == 0 && stop == end + 1)
    decreases |data| - offset
  {
    hide TextOf, FieldAt, Length, Encode, Texts, AllCustom;
    NoFields();
    if data[offset] == END_MARK {
    } else {
      FieldBytes(data, offset);
      var f := FieldAt(data, offset).value;
      if f.text == [] {
        EmptyField(data, offset);
      } else {
        CustomsAreConserved(data, f.next);
        var c: Fitting, fields := Coded(f.typeLength, data[offset + 1..f.next]), FieldsRead(data, f.next);
        OneMoreField(c, fields);
        var end := f.next as int + |Encode(fields)|;
        assert data[offset..end] == data[offset..f.next] + data[f.next..end];
      }
    }
  }

  lemma EmptyField(data: AreaData, offset: uint16)
    requires offset < |data| && FieldAt(data, offset).Ok? && FieldAt(data, offset).value.text == []
    ensures Length(data[offset]) == 0 && FieldAt(data, offset).value.next as int == offset + 1
  {
    FieldBytes(data, offset);
  }

  /** What is parsed accounts for every byte once when an end mark stopped the
      loop; when a field without content did, the byte behind it is dropped. */
  lemma ParsedIsConserved(data: AreaData, offset: uint16)
    requires ParseTail(data, offset).Ok?
    ensures var p, fields := ParseTail(data, offset).value, FieldsRead(data, offset);
      var end := offset as int + |Encode(fields)|;
      && end < |data| && p.custom == Texts(fields)
      && data[offset..] == Encode(fields) + [data[end]]
           + (if data[end] == END_MARK then [] else Most(data, end + 1, 1)) + p.unused + [p.checksum]
  {
    hide Customs, FieldsRead, Texts, Encode, AllCustom, Length;
    CustomsAreConserved(data, offset);
  }
}
