/** MD2 (utils/md2/md2.go): the two-pass definition of RFC 1319, sections 3.1 to
    3.4 (with the erratum that the checksum step XORs into C[j]), and the
    streaming, one-pass, in-place implementation refined to it. */
module Md2 {
  import opened Bytes

  const PI_SUBST: bytes := [
    41, 46, 67, 201, 162, 216, 124, 1, 61, 54, 84, 161, 236, 240, 6, 19,
    98, 167, 5, 243, 192, 199, 115, 140, 152, 147, 43, 217, 188, 76, 130, 202,
    30, 155, 87, 60, 253, 212, 224, 22, 103, 66, 111, 24, 138, 23, 229, 18,
    190, 78, 196, 214, 218, 158, 222, 73, 160, 251, 245, 142, 187, 47, 238, 122,
    169, 104, 121, 145, 21, 178, 7, 63, 148, 194, 16, 137, 11, 34, 95, 33,
    128, 127, 93, 154, 90, 144, 50, 39, 53, 62, 204, 231, 191, 247, 151, 3,
    255, 25, 48, 179, 72, 165, 181, 209, 215, 94, 146, 42, 172, 86, 170, 198,
    79, 184, 56, 210, 150, 164, 125, 182, 118, 252, 107, 226, 156, 116, 4, 241,
    69, 157, 112, 89, 100, 113, 135, 32, 134, 91, 207, 101, 230, 45, 168, 2,
    27, 96, 37, 173, 174, 176, 185, 246, 28, 70, 97, 105, 52, 64, 126, 15,
    85, 71, 163, 35, 221, 81, 175, 58, 195, 92, 249, 206, 186, 197, 234, 38,
    44, 83, 13, 110, 133, 40, 132, 9, 211, 223, 205, 244, 65, 129, 77, 82,
    106, 220, 55, 200, 108, 193, 171, 250, 36, 225, 123, 8, 12, 189, 177, 74,
    120, 136, 149, 139, 227, 99, 232, 109, 233, 203, 213, 254, 59, 0, 29, 57,
    242, 239, 183, 14, 102, 88, 208, 228, 166, 119, 114, 248, 235, 117, 75, 10,
    49, 68, 80, 180, 143, 237, 31, 26, 219, 153, 141, 51, 159, 17, 131, 20]

  type Table = t: bytes | |t| == 256 witness PI_SUBST
  type Block16 = b: bytes | |b| == 16 witness Fill(0, 16)
  type State48 = b: bytes | |b| == 48 witness Fill(0, 48)

  const ROUNDS: nat := 18

  // ----- RFC 1319 -----

  /** Step 1: pad with i bytes of value i up to a multiple of 16. */
  function PadBlock(n: nat): (b: bytes)
    ensures 1 <= |b| <= 16 && (n + |b|) % 16 == 0
  {
    Fill(16 - n % 16, 16 - n % 16)
  }

  /** Step 2: the checksum array and the last value L after the first k bytes. */
  function RfcChecksum(pi: Table, m: bytes, k: nat): (Block16, byte)
    requires k <= |m|
  {
    if k == 0 then (Fill(0, 16), 0)
    else
      var (c, l) := RfcChecksum(pi, m, k - 1);
      var j := (k - 1) % 16;
      var v := Xor(c[j], pi[Xor(m[k - 1], l)]);
      (c[j := v], v)
  }

  /** Step 4, inner loop: the first k positions of one round. */
  function Inner(pi: Table, x: State48, t: byte, k: nat): (State48, byte)
    requires k <= 48
  {
    if k == 0 then (x, t)
    else
      var (y, u) := Inner(pi, x, t, k - 1);
      var v := Xor(y[k - 1], pi[u]);
      (y[k - 1 := v], v)
  }

  /** Step 4, outer loop: the first j rounds. */
  function Rounds(pi: Table, x: State48, j: nat): (State48, byte)
  {
    if j == 0 then (x, 0)
    else
      var (y, u) := Rounds(pi, x, j - 1);
      var (z, w) := Inner(pi, y, u, 48);
      (z, (w + (j - 1)) % 0x100)
  }

  function Load(x: State48, block: Block16): State48
  {
    x[..16] + block + seq(16, i requires 0 <= i < 16 => Xor(block[i], x[i]))
  }

  function Compress(pi: Table, x: State48, block: Block16): State48
  {
    Rounds(pi, Load(x, block), ROUNDS).0
  }

  /** Step 4 over whole blocks. */
  function RfcProcess(pi: Table, m: bytes): State48
    decreases |m|
  {
    if |m| < 16 then Fill(0, 48) else Compress(pi, RfcProcess(pi, m[..|m| - 16]), m[|m| - 16..])
  }

  /** The digest: a first pass for the checksum, a second one over message,
      padding and checksum. */
  function RfcDigest(pi: Table, message: bytes): bytes
  {
    var m := message + PadBlock(|message|);
    var c := RfcChecksum(pi, m, |m|).0;
    RfcProcess(pi, m + c)[..16]
  }

  // ----- one pass over blocks -----

  datatype Core = Core(state: State48, sum: Block16)

  const ZERO_CORE: Core := Core(Fill(0, 48), Fill(0, 16))

  /** The checksum after i bytes of a block, carrying on from its last byte. */
  function SumPrefix(pi: Table, c: Block16, block: Block16, i: nat): (Block16, byte)
    requires i <= 16
  {
    if i == 0 then (c, c[15])
    else
      var (d, t) := SumPrefix(pi, c, block, i - 1);
      var v := Xor(d[i - 1], pi[Xor(block[i - 1], t)]);
      (d[i - 1 := v], v)
  }

  /** One block updates state and checksum together. */
  function Absorb(pi: Table, core: Core, block: Block16): Core
  {
    Core(Compress(pi, core.state, block), SumPrefix(pi, core.sum, block, 16).0)
  }

  function AbsorbAll(pi: Table, m: bytes): Core
    decreases |m|
  {
    if |m| < 16 then ZERO_CORE else Absorb(pi, AbsorbAll(pi, m[..|m| - 16]), m[|m| - 16..])
  }

  lemma AbsorbOneMore(pi: Table, m: bytes, block: Block16)
    ensures AbsorbAll(pi, m + block) == Absorb(pi, AbsorbAll(pi, m), block)
  {
    var n := m + block;
    assert n[..|n| - 16] == m && n[|n| - 16..] == block;
  }

  lemma {:induction false} ChecksumOfPrefix(pi: Table, m: bytes, n: bytes, k: nat)
    requires k <= |m| && m <= n
    ensures RfcChecksum(pi, n, k) == RfcChecksum(pi, m, k)
  {
    if k > 0 {
      ChecksumOfPrefix(pi, m, n, k - 1);
    }
  }

  /** Carrying L inside the last checksum byte is carrying it explicitly. */
  lemma {:induction false} ChecksumWithinBlock(pi: Table, m: bytes, block: Block16, i: nat)
    requires |m| % 16 == 0 && i <= 16
    requires RfcChecksum(pi, m, |m|).1 == RfcChecksum(pi, m, |m|).0[15]
    ensures RfcChecksum(pi, m + block, |m| + i) == SumPrefix(pi, RfcChecksum(pi, m, |m|).0, block, i)
  {
    ChecksumOfPrefix(pi, m, m + block, |m|);
    if i > 0 {
      ChecksumWithinBlock(pi, m, block, i - 1);
      var n, k := m + block, |m| + i;
      assert n[k - 1] == block[i - 1];
      Remainder16(|m|, i - 1);
      assert RfcChecksum(pi, n, k - 1) == SumPrefix(pi, RfcChecksum(pi, m, |m|).0, block, i - 1);
    }
  }

  lemma Remainder16(n: nat, k: nat)
    requires n % 16 == 0 && k < 16
    ensures (n + k) % 16 == k
  {}

  /** One pass computes what the two passes compute. */
  lemma {:induction false} OnePassIsTwoPasses(pi: Table, m: bytes)
    requires |m| % 16 == 0
    ensures AbsorbAll(pi, m) == Core(RfcProcess(pi, m), RfcChecksum(pi, m, |m|).0)
    ensures RfcChecksum(pi, m, |m|).1 == RfcChecksum(pi, m, |m|).0[15]
    decreases |m|
  {
    if m != [] {
      var a, block := m[..|m| - 16], m[|m| - 16..];
      assert m == a + block;
      OnePassIsTwoPasses(pi, a);
      ChecksumWithinBlock(pi, a, block, 16);
    }
  }

  lemma OneMoreBlock(m: bytes, block: Block16)
    requires |m| % 16 == 0
    ensures |m + block| % 16 == 0
  {}

  lemma ChecksumAsLastBlock(pi: Table, m: bytes)
    ensures var core := AbsorbAll(pi, m);
      Absorb(pi, core, core.sum).state == AbsorbAll(pi, m + core.sum).state
  {
    AbsorbOneMore(pi, m, AbsorbAll(pi, m).sum);
  }

  /** Feeding the checksum to itself as the last block gives the RFC digest. */
  lemma FinishIsDigest(pi: Table, message: bytes)
    ensures var core := AbsorbAll(pi, message + PadBlock(|message|));
      Absorb(pi, core, core.sum).state[..16] == RfcDigest(pi, message)
  {
    var m := message + PadBlock(|message|);
    var core := AbsorbAll(pi, m);
    OnePassIsTwoPasses(pi, m);
    ChecksumAsLastBlock(pi, m);
    OneMoreBlock(m, core.sum);
    var n := m + core.sum;
    OnePassIsTwoPasses(pi, n);
  }

  // ----- splitting a message into writes -----

  /** A Write to a digest that holds nx bytes narrows the length to a byte. It
      runs off the buffer when that byte plus nx reaches 256, and it hashes the
      rest before the buffered bytes when a longer slice looks short. */
  predicate Overruns(nx: nat, length: nat)
  {
    0 < nx && length % 0x100 + nx >= 0x100
  }

  predicate Reorders(nx: nat, length: nat)
  {
    0 < nx && length >= 0x100 && length % 0x100 + nx < 16
  }

  /** The bytes hashed or buffered after a Write that does not overrun. */
  function Written(absorbed: bytes, data: bytes): bytes
  {
    var nx := |absorbed| % 16;
    if Reorders(nx, |data|) then
      var n, held := |data| % 0x100, |absorbed| - nx;
      absorbed[..held] + data[n..] + absorbed[held..] + data[..n]
    else absorbed + data
  }

  /** How many bytes a Write takes to fill a buffer of nx bytes. */
  function Taken(nx: nat, length: nat): (n: nat)
    requires nx < 16
    ensures n <= length
    ensures !Overruns(nx, length) ==> n + nx <= 16
  {
    var n := length % 0x100;
    if nx == 0 then 0 else if (n + nx) % 0x100 > 16 then 16 - nx else n
  }

  /** A message as the digest keeps it: hashed blocks, and bytes held back. */
  datatype Parts = Parts(hashed: bytes, held: bytes)

  function PartsOf(absorbed: bytes): Parts
  {
    var whole := |absorbed| - |absorbed| % 16;
    Parts(absorbed[..whole], absorbed[whole..])
  }

  /** The buffer after taking bytes in, emptied when it is full. */
  function Fill16(s: Parts, taken: bytes): Parts
  {
    var now := s.held + taken;
    if |now| == 16 then Parts(s.hashed + now, []) else Parts(s.hashed, now)
  }

  /** The blocks of the rest are hashed, and what is left replaces the buffer. */
  function AddBlocks(s: Parts, rest: bytes): Parts
  {
    var whole := |rest| - |rest| % 16;
    Parts(s.hashed + rest[..whole], if whole == |rest| then s.held else rest[whole..])
  }

  /** The two steps of a Write put the bytes where Written says. */
  lemma WriteParts(absorbed: bytes, data: bytes)
    requires !Overruns(|absorbed| % 16, |data|)
    ensures var s, n := PartsOf(absorbed), Taken(|absorbed| % 16, |data|);
      AddBlocks(Fill16(s, data[..n]), data[n..]) == PartsOf(Written(absorbed, data))
  {
    hide PartsOf, AddBlocks, Fill16;
    var nx := |absorbed| % 16;
    var n, s := Taken(nx, |data|), PartsOf(absorbed);
    WholeParts(absorbed);
    if nx == 0 || nx + n == 16 {
      FilledInOrder(nx, |data|);
      FullParts(absorbed, s, data, n);
    } else {
      ShortTaken(nx, |data|);
      ShortParts(s, data, n);
      assert |data| < 0x100 ==> s.hashed + data[n..] + s.held + data[..n] == absorbed + data;
    }
  }

  lemma NothingTaken(s: Parts, data: bytes)
    requires |s.held| < 16
    ensures Fill16(s, data[..0]) == s && data[0..] == data
    ensures Taken(0, |data|) == 0 && !Overruns(0, |data|)
  {
    assert s.held + data[..0] == s.held;
  }

  lemma WholeParts(absorbed: bytes)
    ensures var s := PartsOf(absorbed);
      && |s.hashed| % 16 == 0 && |s.held| == |absorbed| % 16
      && s.hashed == absorbed[..|s.hashed|] && s.held == absorbed[|s.hashed|..] && s.hashed + s.held == absorbed
  {}

  lemma FilledInOrder(nx: nat, length: nat)
    requires nx == 0 || (nx < 16 && nx + Taken(nx, length) == 16)
    ensures !Reorders(nx, length)
  {}

  lemma ShortTaken(nx: nat, length: nat)
    requires 0 < nx < 16 && !Overruns(nx, length) && nx + Taken(nx, length) < 16
    ensures (length - Taken(nx, length)) % 16 == 0
    ensures if length < 0x100 then Taken(nx, length) == length else Taken(nx, length) == length % 0x100 && Reorders(nx, length)
  {
    Remainder256(length);
  }

  lemma FullParts(absorbed: bytes, s: Parts, data: bytes, n: nat)
    requires n <= |data| && |s.hashed| % 16 == 0 && absorbed == s.hashed + s.held
    requires (|s.held| == 0 && n == 0) || |s.held| + n == 16
    ensures AddBlocks(Fill16(s, data[..n]), data[n..]) == PartsOf(absorbed + data)
  {
    var t := Fill16(s, data[..n]);
    assert t.held == [] && t.hashed == absorbed + data[..n];
    assert t.hashed + data[n..] == absorbed + data;
    BlocksBehindBlocks(t.hashed, data[n..]);
  }

  lemma ShortParts(s: Parts, data: bytes, n: nat)
    requires n <= |data| && |s.hashed| % 16 == 0 && |s.held| + n < 16 && (|data| - n) % 16 == 0
    ensures var out := s.hashed + data[n..] + s.held + data[..n];
      AddBlocks(Fill16(s, data[..n]), data[n..]) == PartsOf(out)
  {
    var rest := data[n..];
    assert rest[..|rest|] == rest;
    assert s.hashed + rest + s.held + data[..n] == (s.hashed + rest) + (s.held + data[..n]);
    HeldBehindBlocks(s.hashed + rest, s.held + data[..n]);
  }

  lemma BlocksBehindBlocks(hashed: bytes, rest: bytes)
    requires |hashed| % 16 == 0
    ensures AddBlocks(Parts(hashed, []), rest) == PartsOf(hashed + rest)
  {
    assert |hashed + rest| % 16 == |rest| % 16;
  }

  lemma HeldBehindBlocks(hashed: bytes, held: bytes)
    requires |hashed| % 16 == 0 && |held| < 16
    ensures PartsOf(hashed + held) == Parts(hashed, held)
  {
    assert |hashed + held| % 16 == |held|;
    assert (hashed + held)[..|hashed|] == hashed && (hashed + held)[|hashed|..] == held;
  }

  lemma Remainder256(n: nat)
    ensures (n - n % 0x100) % 16 == 0
    ensures n < 0x100 ==> n % 0x100 == n
  {
    assert n - n % 0x100 == 16 * (16 * (n / 0x100));
  }

  /** Appending is what every Write of this length does, for all data, exactly
      when the narrowed length does not mislead it. */
  lemma WriteAppends(absorbed: bytes, length: nat)
    ensures (forall data: bytes | |data| == length :: Written(absorbed, data) == absorbed + data)
            <==> !Reorders(|absorbed| % 16, length)
  {
    var nx := |absorbed| % 16;
    if Reorders(nx, length) {
      var first := absorbed[|absorbed| - nx];
      var data := Fill(if first == 0 then 1 else 0, length);
      assert Written(absorbed, data)[|absorbed| - nx] == data[length % 0x100] != (absorbed + data)[|absorbed| - nx];
      assert |data| == length;
    }
  }

  function Flatten(chunks: seq<bytes>): bytes
  {
    if chunks == [] then [] else Flatten(chunks[..|chunks| - 1]) + chunks[|chunks| - 1]
  }

  /** A sequence of writes; None if one of them overruns. */
  function WriteAll(chunks: seq<bytes>): Option<bytes>
  {
    if chunks == [] then Some([])
    else
      match WriteAll(chunks[..|chunks| - 1])
      case None => None
      case Some(absorbed) =>
        var chunk := chunks[|chunks| - 1];
        if Overruns(|absorbed| % 16, |chunk|) then None else Some(Written(absorbed, chunk))
  }

  /** However a message is cut into writes of at most 240 bytes, the same bytes
      are hashed and buffered in the same order. */
  lemma {:induction false} ChunkingDoesNotMatter(chunks: seq<bytes>)
    requires forall chunk <- chunks :: |chunk| <= 240
    ensures WriteAll(chunks) == Some(Flatten(chunks))
  {
    if chunks != [] {
      ChunkingDoesNotMatter(chunks[..|chunks| - 1]);
      assert chunks[|chunks| - 1] in chunks;
    }
  }

  /** The two writes of Sum: the padding fills the buffer, and the checksum of
      the padded message is one more block. */
  lemma SumWrites(pi: Table, message: bytes)
    ensures var pad := PadBlock(|message|); var m := message + pad; var c := AbsorbAll(pi, m).sum;
      && !Overruns(|message| % 16, |pad|) && Written(message, pad) == m
      && PartsOf(m) == Parts(m, [])
      && !Overruns(|m| % 16, |c|) && Written(m, c) == m + c
      && PartsOf(m + c) == Parts(m + c, [])
      && AbsorbAll(pi, m + c).state[..16] == RfcDigest(pi, message)
  {
    hide AbsorbAll, Absorb, RfcDigest, RfcChecksum, RfcProcess;
    var pad := PadBlock(|message|);
    var m := message + pad;
    var c := AbsorbAll(pi, m).sum;
    assert m + [] == m && m + c + [] == m + c;
    HeldBehindBlocks(m, []);
    HeldBehindBlocks(m + c, []);
    ChecksumAsLastBlock(pi, m);
    FinishIsDigest(pi, message);
  }
}
