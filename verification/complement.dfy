/** Ones' and twos' complement codecs (helpers.go), with the wrap-around of
    the source's uint32, uint8 and int32. */
module Complement {
  import opened Bits
  import opened Bytes

  type int32 = x: int | -0x8000_0000 <= x < 0x8000_0000

  function Wrap32(x: int): (r: int)
    ensures -0x8000_0000 <= r < 0x8000_0000
    ensures -0x8000_0000 <= x < 0x8000_0000 ==> r == x
  {
    (x + 0x8000_0000) % 0x1_0000_0000 - 0x8000_0000
  }

  /** Shifting up and down again by 32 - bitSize keeps the lowest bits. The
      subtraction wraps for sizes above 32, and so large a shift leaves nothing. */
  function Field(i: uint32, bitSize: byte): (f: uint32)
    ensures bitSize <= 32 ==> f < Pow2(bitSize)
  {
    Powers();
    if bitSize > 32 then 0
    else
      PowMonotone(bitSize, 32);
      Low(i, bitSize)
  }

  /** The highest bit of a field. A mask shifted out of the word tests nothing. */
  predicate SignSet(field: uint32, bitSize: byte)
  {
    1 <= bitSize <= 32 && field >= Pow2(bitSize - 1)
  }

  function Flipped(field: uint32): uint32
  {
    Powers();
    XorBits(field, 0xffff, 32)
  }

  function OnesComplement(i: uint32, bitSize: byte): int32
  {
    var temp := Field(i, bitSize);
    if !SignSet(temp, bitSize) then Wrap32(temp)
    else Wrap32(-Wrap32(Field(Flipped(temp), bitSize)))
  }

  function TwosComplement(i: uint32, bitSize: byte): int32
  {
    var temp := Field(i, bitSize);
    if !SignSet(temp, bitSize) then Wrap32(temp)
    else Wrap32(-Wrap32(Field((Flipped(temp) + 1) % 0x1_0000_0000, bitSize)))
  }

  /** The encoders raise 2 to bitSize in floating point and convert to int32,
      which is exact up to 30 bits. */
  function OnesComplementEncode(i: int32, bitSize: byte): uint32
    requires bitSize <= 30
  {
    if i >= 0 then i else (Pow2(bitSize) - 1 + i) % 0x1_0000_0000
  }

  function TwosComplementEncode(i: int32, bitSize: byte): uint32
    requires bitSize <= 30
  {
    if i >= 0 then i else (Pow2(bitSize) + i) % 0x1_0000_0000
  }

  // ----- the numbers that patterns stand for -----

  function TwosValue(i: uint32, b: nat): int
    requires b >= 1
  {
    var p := Low(i, b);
    if p < Pow2(b - 1) then p else p - Pow2(b)
  }

  function OnesValue(i: uint32, b: nat): int
    requires b >= 1
  {
    var p := Low(i, b);
    if p < Pow2(b - 1) then p else p - (Pow2(b) - 1)
  }

  /** The twos' complement value is in the b-bit range and congruent to the
      pattern modulo the power. */
  lemma TwosValueIsCongruent(i: uint32, b: nat) returns (k: int)
    requires b >= 1
    ensures i == TwosValue(i, b) + Pow2(b) * k
    ensures -(Pow2(b - 1) as int) <= TwosValue(i, b) < Pow2(b - 1)
  {
    var q := LowIsRemainder(i, b);
    if Low(i, b) < Pow2(b - 1) {
      k := q;
    } else {
      k := q + 1;
      OneTimeMore(Pow2(b), q);
    }
  }

  lemma OneTimeMore(m: nat, q: nat)
    ensures m * (q + 1) == m * q + m
  {}

  /** And it is the only such number. */
  lemma TwosValueIsUnique(i: uint32, b: nat, v: int, j: int)
    requires b >= 1
    requires -(Pow2(b - 1) as int) <= v < Pow2(b - 1) && i == v + Pow2(b) * j
    ensures v == TwosValue(i, b)
  {
    hide TwosValue;
    var k := TwosValueIsCongruent(i, b);
    SameResidue(Pow2(b), v, j, TwosValue(i, b), k);
  }

  lemma SameResidue(m: int, v: int, j: int, w: int, k: int)
    requires m > 0 && v + m * j == w + m * k && -m < v - w < m
    ensures v == w
  {
    Distribute(m, k, j);
    AtLeast(m, k - j);
    AtLeast(m, j - k);
  }

  lemma Distribute(m: int, k: int, j: int)
    ensures m * k - m * j == m * (k - j) && m * (j - k) == -(m * (k - j))
  {}

  lemma AtLeast(m: int, d: int)
    requires m > 0
    ensures d >= 1 ==> m * d >= m
    ensures d == 0 ==> m * d == 0
  {}

  // ----- what the decoders compute -----

  lemma FlippedIs(field: uint32)
    ensures Flipped(field) == field / 0x1_0000 * 0x1_0000 + 0xffff - field % 0x1_0000
  {
    Powers();
    XorLowOnes(field, 16, 32);
    Low16(field);
  }

  lemma SmallPower(b: nat)
    requires 1 <= b <= 16
    ensures Pow2(b) == 2 * Pow2(b - 1) <= 0x1_0000
  {
    Powers();
    PowMonotone(b, 16);
  }

  lemma SmallFlip(temp: uint32, b: byte)
    requires 1 <= b <= 16 && temp < Pow2(b)
    ensures Flipped(temp) <= 0xffff
    ensures Field(Flipped(temp), b) == Pow2(b) - 1 - temp
    ensures temp > 0 ==> Field(Flipped(temp) + 1, b) == Pow2(b) - temp
  {
    hide Low, XorBits;
    Powers();
    SmallPower(b);
    FlippedIs(temp);
    LowOfComplement(temp, b, 16, 32);
    if temp > 0 {
      LowIncrement(Flipped(temp), b);
    }
  }

  /** Up to 16 bits both decoders are right. */
  lemma SmallIsRight(i: uint32, b: byte)
    requires 1 <= b <= 16
    ensures OnesComplement(i, b) == OnesValue(i, b)
    ensures TwosComplement(i, b) == TwosValue(i, b)
  {
    hide Flipped, Low, Pow2, Wrap32;
    SmallPower(b);
    SmallFlip(Field(i, b), b);
  }

  /** The flipped field: its upper part as it was, its lower 16 bits complemented. */
  function HalfFlipped(field: int): int
  {
    field / 0x1_0000 * 0x1_0000 + 0xffff - field % 0x1_0000
  }

  lemma HalfFlippedInRange(field: nat, w: nat)
    requires field < 0x2_0000 * w
    ensures 0 <= HalfFlipped(field) < 0x2_0000 * w
  {}

  /** A field and its flipped form never add up to an all-ones field of more
      than 16 bits. */
  lemma NotComplementary(field: nat, w: nat)
    ensures field + HalfFlipped(field) + 1 != 0x2_0000 * w
  {
    var h := field / 0x1_0000;
    assert field + HalfFlipped(field) + 1 == 0x1_0000 * (2 * h + 1);
  }

  /** What sign-set fields of more than 16 bits are turned into. */
  lemma WideFlip(temp: uint32, b: byte)
    requires 17 <= b <= 32 && temp < Pow2(b)
    ensures var f := HalfFlipped(temp);
      && Field(Flipped(temp), b) == f
      && Field((Flipped(temp) + 1) % 0x1_0000_0000, b) == (if f + 1 == Pow2(b) then 0 else f + 1)
  {
    hide Flipped, Pow2, Low;
    FlippedIs(temp);
    WidePower(b);
    HalfFlippedInRange(temp, Pow2(b - 17));
    var f := Flipped(temp);
    LowOfSmall(f, b);
    if f + 1 < Pow2(b) {
      LowOfSmall(f + 1, b);
    } else if b < 32 {
      PowMonotone(b, 31);
      LowOfPower(b);
    } else {
      LowOfZero(b);
    }
  }

  lemma WidePower(b: nat)
    requires 17 <= b <= 32
    ensures Pow2(b) == 0x2_0000 * Pow2(b - 17) == 2 * Pow2(b - 1)
    ensures Pow2(b) <= 0x1_0000_0000 && (b < 32 ==> Pow2(b) <= 0x8000_0000) && (b == 32 ==> Pow2(b) == 0x1_0000_0000)
  {
    SeventeenMore(b - 17);
    assert 17 + (b - 17) == b;
    Powers();
    assert Pow2(32) == 2 * Pow2(31);
    if b < 32 {
      PowMonotone(b, 31);
    }
  }

  lemma {:induction false} LowOfZero(k: nat)
    ensures Low(0, k) == 0
  {
    if k > 0 {
      LowOfZero(k - 1);
    }
  }

  lemma {:induction false} LowOfPower(k: nat)
    ensures Low(Pow2(k), k) == 0
  {
    if k > 0 {
      LowOfPower(k - 1);
    }
  }

  lemma WrongNumbers(temp: nat, m: nat, w: nat)
    requires m == 0x2_0000 * w && m <= 2 * temp < 2 * m && m <= 0x1_0000_0000
    requires m <= 0x8000_0000 || m == 0x1_0000_0000
    ensures var f := HalfFlipped(temp);
      && Wrap32(-Wrap32(f)) != temp - (m - 1)
      && Wrap32(-Wrap32(if f + 1 == m then 0 else f + 1)) != temp - m
  {
    var f := HalfFlipped(temp);
    HalfFlippedInRange(temp, w);
    NotComplementary(temp, w);
  }

  /** Above 16 bits both decoders are wrong on every field whose sign is set. */
  lemma WideIsWrong(i: uint32, b: byte)
    requires 17 <= b <= 32 && SignSet(Field(i, b), b)
    ensures OnesComplement(i, b) != OnesValue(i, b)
    ensures TwosComplement(i, b) != TwosValue(i, b)
  {
    hide Low, Flipped, Pow2, HalfFlipped, Wrap32;
    var temp := Field(i, b);
    WideFlip(temp, b);
    WidePower(b);
    WrongNumbers(temp, Pow2(b), Pow2(b - 17));
  }

  /** A field without its sign bit is read as it is. */
  lemma PositiveIsRight(i: uint32, b: byte)
    requires 1 <= b <= 32 && !SignSet(Field(i, b), b)
    ensures OnesComplement(i, b) == OnesValue(i, b) == Low(i, b)
    ensures TwosComplement(i, b) == TwosValue(i, b) == Low(i, b)
  {
    Powers();
    PowMonotone(b - 1, 31);
    assert Pow2(31) == 0x8000_0000 by { assert Pow2(32) == 2 * Pow2(31); }
  }

  /** The decoders give the number the pattern stands for if and only if the
      width is at most 16 or the sign bit is clear. */
  lemma DecodersAreRight(i: uint32, b: byte)
    requires 1 <= b <= 32
    ensures OnesComplement(i, b) == OnesValue(i, b) <==> b <= 16 || !SignSet(Field(i, b), b)
    ensures TwosComplement(i, b) == TwosValue(i, b) <==> b <= 16 || !SignSet(Field(i, b), b)
  {
    hide OnesComplement, TwosComplement, SignSet, OnesValue, TwosValue;
    if b <= 16 {
      SmallIsRight(i, b);
    } else if SignSet(Field(i, b), b) {
      WideIsWrong(i, b);
    } else {
      PositiveIsRight(i, b);
    }
  }

  // ----- round trips -----

  /** Decoding an encoded number, for every number of the range. */
  lemma EncodedDecodes(v: int32, b: byte)
    requires 1 <= b <= 16 && -(Pow2(b - 1) as int) <= v < Pow2(b - 1)
    ensures TwosComplement(TwosComplementEncode(v, b), b) == v
    ensures v > -(Pow2(b - 1) as int) ==> OnesComplement(OnesComplementEncode(v, b), b) == v
  {
    hide OnesComplement, TwosComplement, Low, Pow2;
    SmallPower(b);
    var t, o := TwosComplementEncode(v, b), OnesComplementEncode(v, b);
    SmallIsRight(t, b);
    LowOfSmall(t, b);
    SmallIsRight(o, b);
    if o < Pow2(b) {
      LowOfSmall(o, b);
    }
  }

  /** Encoding a decoded pattern gives the pattern back, except that the ones'
      complement pattern of all ones, the negative zero, becomes 0. */
  lemma DecodedEncodes(p: uint32, b: byte)
    requires 1 <= b <= 16 && p < Pow2(b)
    ensures TwosComplementEncode(TwosComplement(p, b), b) == p
    ensures OnesComplementEncode(OnesComplement(p, b), b) == if p == Pow2(b) - 1 then 0 else p
  {
    hide OnesComplement, TwosComplement, Low;
    SmallPower(b);
    SmallIsRight(p, b);
    LowOfSmall(p, b);
  }
}
