/** Type/length coded fields (types_sdr_others.go): binary, BCD plus, 6-bit
    ASCII and 8-bit text, decoded to characters. */
module TypeLengthField {
  import opened Bits
  import opened Bytes

  const BCD_PLUS: bytes := [0x30, 0x31, 0x32, 0x33, 0x34, 0x35, 0x36, 0x37, 0x38, 0x39,
                            0x20, 0x2d, 0x2e, 0x3a, 0x2c, 0x5f]

  /** The first of the 64 ASCII characters that 6-bit ASCII has. */
  const SPACE: byte := 0x20

  function TypeCode(tl: byte): byte
  {
    tl / 64
  }

  function Length(tl: byte): (l: byte)
    ensures l < 64
  {
    tl % 64
  }

  function Size(tl: byte): byte
  {
    var l := Length(tl);
    if TypeCode(tl) == 1 then l * 2
    else if TypeCode(tl) == 2 then (l / 3 + 1) * 4
    else l
  }

  // ----- what the encodings mean (section 43.15 of IPMI v2.0) -----

  /** The j-th bit of the stream that starts with the lowest bit of the first byte. */
  function StreamBit(raw: bytes, j: nat): (b: byte)
    ensures b < 2
  {
    if j / 8 < |raw| then BitAt(raw[j / 8], j % 8) else 0
  }

  /** The i-th group of six bits of the stream. */
  function Group(raw: bytes, i: nat): SixBits
  {
    StreamBit(raw, 6 * i) + 2 * StreamBit(raw, 6 * i + 1) + 4 * StreamBit(raw, 6 * i + 2)
    + 8 * StreamBit(raw, 6 * i + 3) + 16 * StreamBit(raw, 6 * i + 4) + 32 * StreamBit(raw, 6 * i + 5)
  }

  /** The characters of the first n groups. */
  function GroupText(raw: bytes, n: nat): (s: bytes)
    ensures |s| == n
  {
    seq(n, i requires 0 <= i => SPACE + Group(raw, i))
  }

  lemma OneMoreGroup(raw: bytes, n: nat)
    ensures GroupText(raw, n + 1) == GroupText(raw, n) + [SPACE + Group(raw, n)]
  {}

  /** As many characters as there are whole groups. */
  function SixBitText(raw: bytes): (s: bytes)
    ensures |s| == 4 * |raw| / 3
  {
    GroupText(raw, 4 * |raw| / 3)
  }

  /** Two digits a byte, the lower half first. */
  function BcdText(raw: bytes): (s: bytes)
    ensures |s| == 2 * |raw|
  {
    seq(2 * |raw|, i requires 0 <= i < 2 * |raw| =>
      BCD_PLUS[if i % 2 == 0 then raw[i / 2] % 16 else raw[i / 2] / 16])
  }

  function Text(tl: byte, raw: bytes): Option<bytes>
  {
    if |raw| != Length(tl) as nat then None
    else if TypeCode(tl) == 1 then Some(BcdText(raw))
    else if TypeCode(tl) == 2 then Some(SixBitText(raw))
    else Some(raw)
  }

  // ----- decoding -----

  method Chars(tl: byte, raw: bytes) returns (r: Option<bytes>)
    ensures r == Text(tl, raw)
  {
    if |raw| != Length(tl) as nat {
      return None;
    }
    var size := Size(tl) as nat;
    var chars := new byte[size](_ => 0);
    if TypeCode(tl) == 1 {
      for i := 0 to size
        invariant forall k :: 0 <= k < i ==> chars[k] == BcdText(raw)[k]
      {
        var charIndex := if i % 2 == 0 then raw[i / 2] % 16 else raw[i / 2] / 16;
        chars[i] := BCD_PLUS[charIndex];
      }
      assert chars[..] == BcdText(raw);
      r := Some(chars[..]);
    } else if TypeCode(tl) == 2 {
      var s := SixBitChars(raw);
      r := Some(s);
    } else {
      for i := 0 to size
        invariant chars[..i] == raw[..i]
      {
        chars[i] := raw[i];
      }
      assert chars[..] == chars[..size] == raw[..size] == raw;
      r := Some(chars[..]);
    }
  }

  /** Bits of the byte before i that no character has used yet. */
  function Leftover(raw: bytes, i: nat): byte
    requires i <= |raw|
  {
    if i % 3 == 1 then raw[i - 1] / 64
    else if i % 3 == 2 then raw[i - 1] / 16
    else 0
  }

  method SixBitChars(raw: bytes) returns (s: bytes)
    ensures s == SixBitText(raw)
  {
    hide Group, GroupText;
    assert GroupText(raw, 0) == [];
    var leftover: byte := 0;
    s := [];
    for i := 0 to |raw|
      invariant leftover == Leftover(raw, i)
      invariant s == GroupText(raw, 4 * i / 3)
    {
      GroupsAt(raw, i);
      OneMoreGroup(raw, 4 * i / 3);
      OneMoreGroup(raw, 4 * i / 3 + 1);
      if i % 3 == 0 {
        var idx := raw[i] % 64;
        leftover := raw[i] / 64;
        s := s + [SPACE + idx];
      } else if i % 3 == 1 {
        var idx := leftover + raw[i] % 16 * 4;
        leftover := raw[i] / 16;
        s := s + [SPACE + idx];
      } else {
        var idx := raw[i] % 4 * 16 + leftover;
        leftover := 0;
        s := s + [SPACE + idx];
        idx := raw[i] / 4;
        s := s + [SPACE + idx];
      }
    }
  }

  /** The low half of a byte from its bits; its high half is what remains. */
  lemma Nibble(x: byte)
    ensures x == BitAt(x, 0) + 2 * BitAt(x, 1) + 4 * BitAt(x, 2) + 8 * BitAt(x, 3) + 16 * (x / 16)
    ensures forall k: nat :: BitAt(x, k + 4) == BitAt(x / 16, k)
  {
    var h1 := x / 2;
    var h2 := h1 / 2;
    var h3 := h2 / 2;
    var h4 := h3 / 2;
    assert h4 == x / 16;
    assert BitAt(x, 1) == BitAt(h1, 0);
    assert BitAt(x, 2) == BitAt(h1, 1) == BitAt(h2, 0);
    assert BitAt(x, 3) == BitAt(h1, 2) == BitAt(h2, 1) == BitAt(h3, 0);
    forall k: nat
      ensures BitAt(x, k + 4) == BitAt(x / 16, k)
    {
      assert BitAt(x, k + 4) == BitAt(h1, k + 3) == BitAt(h2, k + 2) == BitAt(h3, k + 1) == BitAt(h4, k);
    }
  }

  /** A byte from its bits. */
  lemma BitsOf(x: byte)
    ensures var b0, b1, b2, b3 := BitAt(x, 0), BitAt(x, 1), BitAt(x, 2), BitAt(x, 3);
      var b4, b5, b6, b7 := BitAt(x, 4), BitAt(x, 5), BitAt(x, 6), BitAt(x, 7);
      && x == b0 + 2 * b1 + 4 * b2 + 8 * b3 + 16 * b4 + 32 * b5 + 64 * b6 + 128 * b7
  {
    hide BitAt;
    Nibble(x);
    Nibble(x / 16);
    assert BitAt(x, 0 + 4) == BitAt(x / 16, 0) && BitAt(x, 1 + 4) == BitAt(x / 16, 1);
    assert BitAt(x, 2 + 4) == BitAt(x / 16, 2) && BitAt(x, 3 + 4) == BitAt(x / 16, 3);
  }

  /** The pieces of a byte that the decoder cuts out. */
  lemma Pieces(x: byte)
    ensures var b0, b1, b2, b3 := BitAt(x, 0), BitAt(x, 1), BitAt(x, 2), BitAt(x, 3);
      var b4, b5, b6, b7 := BitAt(x, 4), BitAt(x, 5), BitAt(x, 6), BitAt(x, 7);
      && x % 4 == b0 + 2 * b1 && x / 4 == b2 + 2 * b3 + 4 * b4 + 8 * b5 + 16 * b6 + 32 * b7
      && x % 16 == b0 + 2 * b1 + 4 * b2 + 8 * b3 && x / 16 == b4 + 2 * b5 + 4 * b6 + 8 * b7
      && x % 64 == b0 + 2 * b1 + 4 * b2 + 8 * b3 + 16 * b4 + 32 * b5 && x / 64 == b6 + 2 * b7
  {
    hide BitAt;
    BitsOf(x);
  }

  /** Which groups the i-th byte completes, and what they are. */
  lemma GroupsAt(raw: bytes, i: nat)
    requires i < |raw|
    ensures i % 3 != 2 ==> 4 * i / 3 + 1 == 4 * (i + 1) / 3
    ensures i % 3 == 2 ==> 4 * i / 3 + 2 == 4 * (i + 1) / 3
    ensures i % 3 == 0 ==> Group(raw, 4 * i / 3) == raw[i] % 64
    ensures i % 3 == 1 ==> Group(raw, 4 * i / 3) == raw[i - 1] / 64 + raw[i] % 16 * 4
    ensures i % 3 == 2 ==> Group(raw, 4 * i / 3) == raw[i] % 4 * 16 + raw[i - 1] / 16
    ensures i % 3 == 2 ==> Group(raw, 4 * i / 3 + 1) == raw[i] / 4
  {
    hide Group;
    var q := i / 3;
    Thirds(i, q);
    if i % 3 == 0 {
      FirstGroup(raw, q);
    } else if i % 3 == 1 {
      SecondGroup(raw, q);
    } else {
      ThirdGroup(raw, q);
      FourthGroup(raw, q);
    }
  }

  lemma Thirds(i: nat, q: nat)
    requires q == i / 3
    ensures i % 3 == 0 ==> i == 3 * q && 4 * i / 3 == 4 * q && 4 * (i + 1) / 3 == 4 * q + 1
    ensures i % 3 == 1 ==> i == 3 * q + 1 && 4 * i / 3 == 4 * q + 1 && 4 * (i + 1) / 3 == 4 * q + 2
    ensures i % 3 == 2 ==> i == 3 * q + 2 && 4 * i / 3 == 4 * q + 2 && 4 * (i + 1) / 3 == 4 * q + 4
  {}

  lemma RawBit(raw: bytes, j: nat, k: nat)
    requires j < |raw| && k < 8
    ensures StreamBit(raw, 8 * j + k) == BitAt(raw[j], k)
  {
    assert (8 * j + k) / 8 == j && (8 * j + k) % 8 == k;
  }

  lemma BitsAt(raw: bytes, j: nat)
    requires j < |raw|
    ensures StreamBit(raw, 8 * j) == BitAt(raw[j], 0) && StreamBit(raw, 8 * j + 1) == BitAt(raw[j], 1)
    ensures StreamBit(raw, 8 * j + 2) == BitAt(raw[j], 2) && StreamBit(raw, 8 * j + 3) == BitAt(raw[j], 3)
    ensures StreamBit(raw, 8 * j + 4) == BitAt(raw[j], 4) && StreamBit(raw, 8 * j + 5) == BitAt(raw[j], 5)
    ensures StreamBit(raw, 8 * j + 6) == BitAt(raw[j], 6) && StreamBit(raw, 8 * j + 7) == BitAt(raw[j], 7)
  {
    hide StreamBit, BitAt;
    RawBit(raw, j, 0);
    RawBit(raw, j, 1);
    RawBit(raw, j, 2);
    RawBit(raw, j, 3);
    RawBit(raw, j, 4);
    RawBit(raw, j, 5);
    RawBit(raw, j, 6);
    RawBit(raw, j, 7);
  }

  lemma FirstGroup(raw: bytes, q: nat)
    requires 3 * q < |raw|
    ensures Group(raw, 4 * q) == raw[3 * q] % 64
  {
    hide BitAt, StreamBit;
    BitsAt(raw, 3 * q);
    Pieces(raw[3 * q]);
  }

  lemma SecondGroup(raw: bytes, q: nat)
    requires 3 * q + 1 < |raw|
    ensures Group(raw, 4 * q + 1) == raw[3 * q] / 64 + raw[3 * q + 1] % 16 * 4
  {
    hide BitAt, StreamBit;
    BitsAt(raw, 3 * q);
    BitsAt(raw, 3 * q + 1);
    Pieces(raw[3 * q]);
    Pieces(raw[3 * q + 1]);
  }

  lemma ThirdGroup(raw: bytes, q: nat)
    requires 3 * q + 2 < |raw|
    ensures Group(raw, 4 * q + 2) == raw[3 * q + 2] % 4 * 16 + raw[3 * q + 1] / 16
  {
    hide BitAt, StreamBit;
    BitsAt(raw, 3 * q + 1);
    BitsAt(raw, 3 * q + 2);
    Pieces(raw[3 * q + 1]);
    Pieces(raw[3 * q + 2]);
  }

  lemma FourthGroup(raw: bytes, q: nat)
    requires 3 * q + 2 < |raw|
    ensures Group(raw, 4 * q + 3) == raw[3 * q + 2] / 4
  {
    hide BitAt, StreamBit;
    BitsAt(raw, 3 * q + 2);
    Pieces(raw[3 * q + 2]);
  }

  // ----- packing, as a FRU is written -----

  /** The 64 characters that 6-bit ASCII has. */
  predicate Packable(s: bytes)
  {
    forall i :: 0 <= i < |s| ==> SPACE <= s[i] < SPACE + 64
  }

  function SixBitsAt(s: bytes, i: nat): SixBits
    requires Packable(s)
  {
    if i < |s| then s[i] - SPACE else 0
  }

  /** The t-th bit of the stream of six-bit characters. */
  function TextBit(s: bytes, t: nat): (b: byte)
    requires Packable(s)
    ensures b < 2
  {
    BitAt(SixBitsAt(s, t / 6), t % 6)
  }

  function PackedByte(s: bytes, j: nat): byte
    requires Packable(s)
  {
    TextBit(s, 8 * j) + 2 * TextBit(s, 8 * j + 1) + 4 * TextBit(s, 8 * j + 2) + 8 * TextBit(s, 8 * j + 3)
    + 16 * TextBit(s, 8 * j + 4) + 32 * TextBit(s, 8 * j + 5) + 64 * TextBit(s, 8 * j + 6) + 128 * TextBit(s, 8 * j + 7)
  }

  function PackedSize(n: nat): nat
  {
    (6 * n + 7) / 8
  }

  /** The stream cut into bytes, the last one filled up with zero bits. */
  function Packed(s: bytes): (raw: bytes)
    requires Packable(s)
    ensures |raw| == PackedSize(|s|)
  {
    seq(PackedSize(|s|), j requires 0 <= j => PackedByte(s, j))
  }

  lemma BitsOfSum(b0: byte, b1: byte, b2: byte, b3: byte, b4: byte, b5: byte, b6: byte, b7: byte)
    requires b0 < 2 && b1 < 2 && b2 < 2 && b3 < 2 && b4 < 2 && b5 < 2 && b6 < 2 && b7 < 2
    ensures var x := b0 + 2 * b1 + 4 * b2 + 8 * b3 + 16 * b4 + 32 * b5 + 64 * b6 + 128 * b7;
      && BitAt(x, 0) == b0 && BitAt(x, 1) == b1 && BitAt(x, 2) == b2 && BitAt(x, 3) == b3
      && BitAt(x, 4) == b4 && BitAt(x, 5) == b5 && BitAt(x, 6) == b6 && BitAt(x, 7) == b7
  {
    hide BitAt;
    NibbleOfSum(b0, b1, b2, b3, b4 + 2 * b5 + 4 * b6 + 8 * b7);
    NibbleOfSum(b4, b5, b6, b7, 0);
    var x: byte := b0 + 2 * b1 + 4 * b2 + 8 * b3 + 16 * b4 + 32 * b5 + 64 * b6 + 128 * b7;
    var y: byte := b4 + 2 * b5 + 4 * b6 + 8 * b7;
    Nibble(x);
    assert x / 16 == y;
    assert BitAt(x, 0 + 4) == BitAt(y, 0) && BitAt(x, 1 + 4) == BitAt(y, 1);
    assert BitAt(x, 2 + 4) == BitAt(y, 2) && BitAt(x, 3 + 4) == BitAt(y, 3);
  }

  lemma NibbleOfSum(b0: byte, b1: byte, b2: byte, b3: byte, rest: byte)
    requires b0 < 2 && b1 < 2 && b2 < 2 && b3 < 2 && rest < 16
    ensures var x := b0 + 2 * b1 + 4 * b2 + 8 * b3 + 16 * rest;
      BitAt(x, 0) == b0 && BitAt(x, 1) == b1 && BitAt(x, 2) == b2 && BitAt(x, 3) == b3 && x / 16 == rest
  {
    var x: byte := b0 + 2 * b1 + 4 * b2 + 8 * b3 + 16 * rest;
    var h1: byte := b1 + 2 * b2 + 4 * b3 + 8 * rest;
    var h2: byte := b2 + 2 * b3 + 4 * rest;
    var h3: byte := b3 + 2 * rest;
    assert x / 2 == h1 && h1 / 2 == h2 && h2 / 2 == h3;
    assert BitAt(x, 1) == BitAt(h1, 0);
    assert BitAt(x, 2) == BitAt(h1, 1) == BitAt(h2, 0);
    assert BitAt(x, 3) == BitAt(h1, 2) == BitAt(h2, 1) == BitAt(h3, 0);
  }

  lemma PackedByteBits(s: bytes, j: nat, k: nat)
    requires Packable(s) && k < 8
    ensures BitAt(PackedByte(s, j), k) == TextBit(s, 8 * j + k)
  {
    hide BitAt, TextBit;
    BitsOfSum(TextBit(s, 8 * j), TextBit(s, 8 * j + 1), TextBit(s, 8 * j + 2), TextBit(s, 8 * j + 3),
              TextBit(s, 8 * j + 4), TextBit(s, 8 * j + 5), TextBit(s, 8 * j + 6), TextBit(s, 8 * j + 7));
  }

  /** The packed bytes hold the stream of the text, and zeros behind it. */
  lemma PackedStream(s: bytes, t: nat)
    requires Packable(s)
    ensures StreamBit(Packed(s), t) == TextBit(s, t)
  {
    hide BitAt, PackedByte;
    var j, k := t / 8, t % 8;
    assert t == 8 * j + k;
    if j < PackedSize(|s|) {
      assert Packed(s)[j] == PackedByte(s, j);
      PackedByteBits(s, j, k);
    } else {
      assert t / 6 >= |s|;
      ZeroBits(t % 6);
    }
  }

  lemma {:induction false} ZeroBits(k: nat)
    ensures BitAt(0, k) == 0
  {
    if k > 0 {
      ZeroBits(k - 1);
    }
  }

  lemma PackedGroup(s: bytes, i: nat)
    requires Packable(s)
    ensures Group(Packed(s), i) == SixBitsAt(s, i)
  {
    hide BitAt, StreamBit, Packed;
    forall b | 0 <= b < 6
      ensures StreamBit(Packed(s), 6 * i + b) == BitAt(SixBitsAt(s, i), b)
    {
      PackedStream(s, 6 * i + b);
      assert (6 * i + b) / 6 == i && (6 * i + b) % 6 == b;
    }
    assert StreamBit(Packed(s), 6 * i + 0) == BitAt(SixBitsAt(s, i), 0);
    Pieces(SixBitsAt(s, i));
  }

  lemma GroupCount(n: nat)
    ensures 4 * PackedSize(n) / 3 == if n % 4 == 3 then n + 1 else n
  {
    var m, r := n / 4, n % 4;
    assert n == 4 * m + r;
    assert PackedSize(n) == 3 * m + (6 * r + 7) / 8;
  }

  /** Unpacking a packed text gives the text, and one space more exactly when
      its length is 3 modulo 4. */
  lemma UnpackedText(s: bytes)
    requires Packable(s)
    ensures SixBitText(Packed(s)) == if |s| % 4 == 3 then s + [SPACE] else s
  {
    hide Group, Packed;
    GroupCount(|s|);
    var text := SixBitText(Packed(s));
    forall i | 0 <= i < |text|
      ensures text[i] == if i < |s| then s[i] else SPACE
    {
      PackedGroup(s, i);
    }
  }

  /** The same with the type/length byte in front, for every text that fits. */
  lemma TextOfPackedField(s: bytes)
    requires Packable(s) && PackedSize(|s|) < 64
    ensures Text(0x80 + PackedSize(|s|), Packed(s)) == Some(if |s| % 4 == 3 then s + [SPACE] else s)
  {
    hide SixBitText, Packed;
    UnpackedText(s);
  }

  /** The size the client computes is the number of characters except for 6-bit
      text, where it is always too large; the decoder does not use it there. */
  lemma SizeCountsCharacters(tl: byte, raw: bytes)
    requires |raw| == Length(tl) as nat
    ensures |Text(tl, raw).value| <= Size(tl) as nat
    ensures |Text(tl, raw).value| == Size(tl) as nat <==> TypeCode(tl) != 2
  {}

  /** BCD digits come back as they were packed, two to a byte. */
  lemma DigitsSurvive(digits: seq<byte>, i: nat)
    requires |digits| % 2 == 0 && i < |digits| && forall k :: 0 <= k < |digits| ==> digits[k] < 16
    ensures BcdText(DigitPairs(digits))[i] == BCD_PLUS[digits[i]]
  {
    var j := i / 2;
    DigitsOf(digits[2 * j], digits[2 * j + 1]);
    assert DigitPairs(digits)[j] == digits[2 * j] + 16 * digits[2 * j + 1];
  }

  lemma DigitsOf(low: byte, high: byte)
    requires low < 16 && high < 16
    ensures (low + 16 * high) % 16 == low && (low + 16 * high) / 16 == high
  {}

  function DigitPairs(digits: seq<byte>): (raw: bytes)
    requires |digits| % 2 == 0 && forall i :: 0 <= i < |digits| ==> digits[i] < 16
    ensures |raw| == |digits| / 2
  {
    seq(|digits| / 2, j requires 0 <= j < |digits| / 2 => digits[2 * j] + 16 * digits[2 * j + 1])
  }

  // ----- texts as they are written (section 43.15 of IPMI v2.0) -----

  /** A text and the encoding it is written in. */
  datatype Written = Binary(text: bytes) | BcdPlus(text: bytes) | SixBit(text: bytes) | EightBit(text: bytes)

  /** Digits, and the six characters that BCD plus adds to them. */
  predicate IsBcdCharacter(ch: byte)
  {
    '0' as int <= ch <= '9' as int || ch in {' ' as int, '-' as int, '.' as int, ':' as int, ',' as int, '_' as int}
  }

  function BcdCode(ch: byte): (code: byte)
    ensures code < 16
  {
    if '0' as int <= ch <= '9' as int then ch - '0' as int
    else if ch == ' ' as int then 10
    else if ch == '-' as int then 11
    else if ch == '.' as int then 12
    else if ch == ':' as int then 13
    else if ch == ',' as int then 14
    else 15
  }

  /** The text has characters of its encoding, in bytes that a 6-bit length counts;
      BCD plus comes in pairs. */
  predicate CanWrite(w: Written)
  {
    match w
    case Binary(s) => |s| < 64
    case BcdPlus(s) => |s| % 2 == 0 && |s| < 128 && forall i :: 0 <= i < |s| ==> IsBcdCharacter(s[i])
    case SixBit(s) => PackedSize(|s|) < 64 && Packable(s)
    case EightBit(s) => |s| < 64
  }

  type Writable = w: Written | CanWrite(w) witness Binary([])

  function WrittenBytes(w: Writable): (raw: bytes)
    ensures |raw| < 64
  {
    match w
    case Binary(s) => s
    case BcdPlus(s) =>
      seq(|s| / 2, j requires 0 <= j < |s| / 2 => BcdCode(s[2 * j]) + 16 * BcdCode(s[2 * j + 1]))
    case SixBit(s) => Packed(s)
    case EightBit(s) => s
  }

  /** The encoding in the upper two bits, the number of bytes in the lower six. */
  function WrittenType(w: Writable): byte
  {
    var n := |WrittenBytes(w)|;
    match w
    case Binary(_) => n
    case BcdPlus(_) => 0x40 + n
    case SixBit(_) => 0x80 + n
    case EightBit(_) => 0xc0 + n
  }

  /** The text itself; 6-bit texts of a length 3 modulo 4 gain a space. */
  function ReadBack(w: Written): bytes
  {
    if w.SixBit? && |w.text| % 4 == 3 then w.text + [' ' as int] else w.text
  }

  /** Every text that can be written is read back, in all four encodings. */
  lemma WrittenIsRead(w: Writable)
    ensures Text(WrittenType(w), WrittenBytes(w)) == Some(ReadBack(w))
  {
    hide Packed, SixBitText;
    match w
    case Binary(s) =>
    case BcdPlus(s) => BcdIsRead(s);
    case SixBit(s) => TextOfPackedField(s);
    case EightBit(s) =>
  }

  /** The type/length byte counts the bytes, which are none only for no text. It is
      C1h for 8-bit texts of one character. */
  lemma WrittenLength(w: Writable)
    ensures Length(WrittenType(w)) as nat == |WrittenBytes(w)|
    ensures WrittenBytes(w) == [] <==> w.text == []
    ensures WrittenType(w) == 0xc1 <==> w.EightBit? && |w.text| == 1
  {
    hide Packed;
  }

  lemma BcdIsRead(s: bytes)
    requires CanWrite(BcdPlus(s))
    ensures BcdText(WrittenBytes(BcdPlus(s))) == s
  {
    hide BcdText, BcdCode, IsBcdCharacter;
    var raw := WrittenBytes(BcdPlus(s));
    var text := BcdText(raw);
    assert |text| == |s|;
    forall i | 0 <= i < |s|
      ensures text[i] == s[i]
    {
      var j := i / 2;
      PairIsRead(raw, j, s[2 * j], s[2 * j + 1]);
      assert i == 2 * j || i == 2 * j + 1;
    }
  }

  lemma PairIsRead(raw: bytes, j: nat, a: byte, b: byte)
    requires j < |raw| && raw[j] == BcdCode(a) + 16 * BcdCode(b) && IsBcdCharacter(a) && IsBcdCharacter(b)
    ensures |BcdText(raw)| > 2 * j + 1 && BcdText(raw)[2 * j] == a && BcdText(raw)[2 * j + 1] == b
  {
    hide BcdCode, IsBcdCharacter;
    assert (2 * j) / 2 == j && (2 * j) % 2 == 0 && (2 * j + 1) / 2 == j && (2 * j + 1) % 2 == 1;
    PairOfCodes(a, b);
    CharacterOfCode(a);
    CharacterOfCode(b);
  }

  lemma PairOfCodes(a: byte, b: byte)
    ensures var x := BcdCode(a) + 16 * BcdCode(b);
      x % 16 == BcdCode(a) && x / 16 == BcdCode(b)
  {
    hide BcdCode;
    DigitsOf(BcdCode(a), BcdCode(b));
  }

  lemma CharacterOfCode(ch: byte)
    requires IsBcdCharacter(ch)
    ensures BCD_PLUS[BcdCode(ch)] == ch
  {}

  /** Three bytes hold four characters, the lowest bits first; two left over hold
      two, and one holds one. */
  lemma SixBitCharacters(raw: bytes, q: nat)
    ensures var s := SixBitText(raw);
      && (3 * q < |raw| ==> |s| > 4 * q && s[4 * q] == 0x20 + raw[3 * q] % 64)
      && (3 * q + 1 < |raw| ==> |s| > 4 * q + 1 && s[4 * q + 1] == 0x20 + raw[3 * q] / 64 + raw[3 * q + 1] % 16 * 4)
      && (3 * q + 2 < |raw| ==>
            && |s| > 4 * q + 3
            && s[4 * q + 2] == 0x20 + raw[3 * q + 1] / 16 + raw[3 * q + 2] % 4 * 16
            && s[4 * q + 3] == 0x20 + raw[3 * q + 2] / 4)
  {
    hide Group;
    if 3 * q < |raw| {
      FirstGroup(raw, q);
    }
    if 3 * q + 1 < |raw| {
      SecondGroup(raw, q);
    }
    if 3 * q + 2 < |raw| {
      ThirdGroup(raw, q);
      FourthGroup(raw, q);
    }
  }
}
