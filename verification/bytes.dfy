/** Bytes, fixed-width integers and the byte-slice helpers of helpers.go.
    A byte is an integer below 256. */
module Bytes {
  import opened Bits

  type byte = x: int | 0 <= x < 0x100
  type SixBits = x: byte | x < 64
  type uint16 = x: int | 0 <= x < 0x1_0000
  type uint32 = x: int | 0 <= x < 0x1_0000_0000
  type bytes = seq<byte>

  datatype Option<+T> = None | Some(value: T)

  /** A call returns a value, returns an error, or panics on an index or slice bound. */
  datatype Outcome<+T> = Ok(value: T) | Err | Panic

  function Xor(a: byte, b: byte): (r: byte)
  {
    Powers();
    XorBits(a, b, 8)
  }

  lemma XorCancels(a: byte, b: byte)
    ensures Xor(Xor(a, b), b) == a
  {
    Powers();
    XorBitsCancels(a, b, 8);
  }

  // ----- little-endian integers -----

  function LE16(n: uint16): (b: bytes)
    ensures |b| == 2
  {
    [n % 256, n / 256]
  }

  function LE32(n: uint32): (b: bytes)
    ensures |b| == 4
  {
    LE16(n % 0x1_0000) + LE16(n / 0x1_0000)
  }

  function U16At(b: bytes, off: nat): uint16
    requires off + 2 <= |b|
  {
    b[off] as int + 0x100 * b[off + 1] as int
  }

  function U24At(b: bytes, off: nat): uint32
    requires off + 3 <= |b|
  {
    U16At(b, off) as int + 0x1_0000 * b[off + 2] as int
  }

  function U32At(b: bytes, off: nat): uint32
    requires off + 4 <= |b|
  {
    U16At(b, off) as int + 0x1_0000 * U16At(b, off + 2) as int
  }

  /** Little-endian packing loses nothing, wherever the bytes stand. */
  lemma LE16RoundTrip(n: uint16, s: bytes, off: nat)
    requires off + 2 <= |s| && s[off..off + 2] == LE16(n)
    ensures U16At(s, off) == n
  {
    assert s[off] == s[off..off + 2][0] && s[off + 1] == s[off..off + 2][1];
  }

  lemma LE32RoundTrip(n: uint32, s: bytes, off: nat)
    requires off + 4 <= |s| && s[off..off + 4] == LE32(n)
    ensures U32At(s, off) == n
  {
    assert s[off..off + 2] == s[off..off + 4][..2] == LE16(n % 0x1_0000);
    assert s[off + 2..off + 4] == s[off..off + 4][2..] == LE16(n / 0x1_0000);
    LE16RoundTrip(n % 0x1_0000, s, off);
    LE16RoundTrip(n / 0x1_0000, s, off + 2);
  }

  /** The least significant byte comes first, read and written. */
  lemma LeastSignificantFirst(s: bytes, off: nat)
    ensures off + 2 <= |s| ==> U16At(s, off) == s[off] as int + 0x100 * s[off + 1] as int
    ensures off + 4 <= |s| ==>
      U32At(s, off) == s[off] as int + 0x100 * s[off + 1] as int + 0x1_0000 * s[off + 2] as int + 0x100_0000 * s[off + 3] as int
  {}

  lemma LeastSignificantWrittenFirst(n: uint32)
    ensures var b := LE32(n);
      n == b[0] as int + 0x100 * b[1] as int + 0x1_0000 * b[2] as int + 0x100_0000 * b[3] as int
  {
    hide LE32, U32At;
    var b := LE32(n);
    assert b[0..4] == b;
    LE32RoundTrip(n, b, 0);
    LeastSignificantFirst(b, 0);
  }

  lemma SliceOfSlice(s: bytes, i: nat, j: nat, a: nat, b: nat)
    requires i <= j <= |s| && a <= b <= j - i
    ensures s[i..j][a..b] == s[i + a..i + b]
  {
    forall k | 0 <= k < b - a
      ensures s[i..j][a..b][k] == s[i + a..i + b][k]
    {
      assert s[i..j][a + k] == s[i + (a + k)];
    }
  }

  lemma SplitSlice(s: bytes, lo: nat, mid: nat, hi: nat)
    requires lo <= mid <= hi <= |s|
    ensures s[lo..hi][..mid - lo] == s[lo..mid]
    ensures s[lo..hi][mid - lo..] == s[mid..hi]
  {
    SliceOfSlice(s, lo, hi, 0, mid - lo);
    SliceOfSlice(s, lo, hi, mid - lo, hi - lo);
  }

  // ----- helpers.go: unpack helpers (a read past the end yields the zero value) -----

  function UnpackUint8(msg: bytes, off: nat): byte
  {
    if off + 1 > |msg| then 0 else msg[off]
  }

  function UnpackUint16L(msg: bytes, off: nat): uint16
  {
    if off + 2 > |msg| then 0 else U16At(msg, off)
  }

  function UnpackUint32L(msg: bytes, off: nat): uint32
  {
    if off + 4 > |msg| then 0 else U32At(msg, off)
  }

  function UnpackBytes(msg: bytes, off: nat, length: nat): bytes
  {
    if off + length > |msg| then [] else msg[off..off + length]
  }

  /** The bytes from `off` on, at most `length` of them. */
  function Most(msg: bytes, off: nat, length: nat): (b: bytes)
    ensures |b| <= length
  {
    if off >= |msg| then [] else if off + length <= |msg| then msg[off..off + length] else msg[off..]
  }

  method UnpackBytesMost(msg: bytes, off: nat, length: nat) returns (out: bytes)
    ensures out == Most(msg, off, length)
  {
    var buffer := new byte[length];
    var i := 0;
    while i < length
      invariant 0 <= i <= length
      invariant buffer[..i] == Most(msg, off, i) && |Most(msg, off, i)| == i
    {
      if off + i >= |msg| {
        break;
      }
      buffer[i] := msg[off + i];
      i := i + 1;
    }
    out := buffer[..i];
  }

  // ----- helpers.go: pack helpers (a write that does not fit changes nothing) -----

  function Fill(v: byte, n: nat): (s: bytes)
    ensures |s| == n && forall i :: 0 <= i < n ==> s[i] == v
  {
    seq(n, _ => v)
  }

  /** `after` is `before` with v written at off, if it fits. */
  ghost predicate Spliced(before: bytes, off: nat, v: bytes, after: bytes)
  {
    if off + |v| > |before| then after == before
    else |after| == |before| && after[..off + |v|] == before[..off] + v && after[off + |v|..] == before[off + |v|..]
  }

  /** What a write leaves alone, byte by byte. */
  lemma SpliceKeeps(before: bytes, off: nat, v: bytes, after: bytes)
    requires Spliced(before, off, v, after)
    ensures |after| == |before|
    ensures forall k :: off + |v| <= k < |before| ==> after[k] == before[k]
  {
    if off + |v| <= |before| {
      forall k | off + |v| <= k < |before|
        ensures after[k] == before[k]
      {
        assert after[off + |v|..][k - off - |v|] == before[off + |v|..][k - off - |v|];
      }
    }
  }

  /** Writing behind what is already built extends it. */
  lemma SpliceNext(before: bytes, off: nat, v: bytes, after: bytes, built: bytes)
    requires Spliced(before, off, v, after) && off + |v| <= |before| && before[..off] == built
    ensures |after| == |before| && after[..off + |v|] == built + v
  {}

  /** Writing one byte that fits is an update. */
  lemma SpliceByte(before: bytes, off: nat, v: byte, after: bytes)
    requires Spliced(before, off, [v], after) && off < |before|
    ensures after == before[off := v]
  {
    assert after == after[..off + 1] + after[off + 1..];
  }

  method PackBytes(v: bytes, msg: array<byte>, off: nat)
    modifies msg
    ensures Spliced(old(msg[..]), off, v, msg[..])
  {
    if off + |v| > msg.Length {
      return;
    }
    for k := 0 to |v|
      invariant msg[..off + k] == old(msg[..off]) + v[..k]
      invariant msg[off + |v|..] == old(msg[off + |v|..])
    {
      msg[off + k] := v[k];
    }
  }

  method PackUint8(i: byte, msg: array<byte>, off: nat)
    modifies msg
    ensures Spliced(old(msg[..]), off, [i], msg[..])
  {
    if off + 1 <= msg.Length {
      msg[off] := i;
    }
  }

  method PackUint16L(i: uint16, msg: array<byte>, off: nat)
    modifies msg
    ensures Spliced(old(msg[..]), off, LE16(i), msg[..])
  {
    if off + 2 <= msg.Length {
      msg[off], msg[off + 1] := i % 256, i / 256;
    }
  }

  method PackUint32L(i: uint32, msg: array<byte>, off: nat)
    modifies msg
    ensures Spliced(old(msg[..]), off, LE32(i), msg[..])
  {
    if off + 4 <= msg.Length {
      var low, high := i % 0x1_0000, i / 0x1_0000;
      msg[off], msg[off + 1], msg[off + 2], msg[off + 3] := low % 256, low / 256, high % 256, high / 256;
    }
  }

  // ----- helpers.go: padding and comparison -----

  /** `s` cut or extended with `pad` to exactly `width` bytes. */
  function Padded(s: bytes, width: nat, pad: byte): (o: bytes)
    ensures |o| == width
  {
    (s + Fill(pad, width))[..width]
  }

  /** The bytes of the text, then pad bytes. */
  ghost predicate IsPadded(o: bytes, s: bytes, width: nat, pad: byte)
  {
    |o| == width && forall i :: 0 <= i < width ==> o[i] == if i < |s| then s[i] else pad
  }

  lemma PaddedLayout(s: bytes, width: nat, pad: byte)
    ensures IsPadded(Padded(s, width, pad), s, width, pad)
  {}

  method PadBytes(s: bytes, width: nat, pad: byte) returns (o: bytes)
    ensures o == Padded(s, width, pad)
  {
    o := s;
    if |s| >= width {
      return o[..width];
    }
    for i := 0 to width - |s|
      invariant o == s + Fill(pad, i)
    {
      o := o + [pad];
    }
  }

  /** Slice equality; nil (None) is equal to nothing, not even to nil. */
  method IsByteSliceEqual(b1: Option<bytes>, b2: Option<bytes>) returns (equal: bool)
    ensures equal <==> b1.Some? && b1 == b2
  {
    if b1.None? || b2.None? {
      return false;
    }
    if |b1.value| != |b2.value| {
      return false;
    }
    for k := 0 to |b1.value|
      invariant b1.value[..k] == b2.value[..k]
    {
      if b1.value[k] != b2.value[k] {
        return false;
      }
    }
    assert b1.value[..|b1.value|] == b1.value && b2.value[..|b1.value|] == b2.value;
    return true;
  }

  /** The sum of all bytes, before any reduction modulo 256. */
  function Total(s: bytes): nat
  {
    if s == [] then 0 else Total(s[..|s| - 1]) + s[|s| - 1]
  }

  lemma TotalAppend(a: bytes, b: bytes)
    ensures Total(a + b) == Total(a) + Total(b)
  {
    if b == [] {
      assert a + b == a;
    } else {
      var c := b[..|b| - 1];
      assert (a + b)[..|a + b| - 1] == a + c;
      TotalAppend(a, c);
    }
  }
}
