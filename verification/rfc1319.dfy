/** RFC 1319 as equations between the values before and after each step, with
    the numbers of the document, and the digest of module Md2 as their solution. */
module Rfc1319 {
  import opened Bytes
  import opened Md2

  /** Section 3.1: the message and n bytes of value n. */
  ghost predicate IsPaddedMessage(m: bytes, message: bytes)
  {
    var n := |m| - |message|;
    && |m| % 16 == 0 && 1 <= n <= 16 && m[..|message|] == message
    && forall k :: |message| <= k < |m| ==> m[k] as int == n
  }

  /** Section 3.2 for one block, with its erratum: each byte is XORed with the
      substitution of the block's byte and the checksum byte before it, the first
      with the last one of the block before. */
  ghost predicate IsChecksumStep(pi: Table, c: Block16, block: Block16, d: Block16)
  {
    && d[0] == Xor(c[0], pi[Xor(block[0], c[15])])
    && forall j :: 1 <= j < 16 ==> d[j] == Xor(c[j], pi[Xor(block[j], d[j - 1])])
  }

  /** Section 3.4, before the rounds: the block, and the block XORed with the state,
      behind the first 16 bytes of the state. */
  ghost predicate IsLoaded(x: State48, block: Block16, z: State48)
  {
    forall j :: 0 <= j < 16 ==> z[j] == x[j] && z[16 + j] == block[j] && z[32 + j] == Xor(block[j], x[j])
  }

  /** Round j: each byte is XORed with the substitution of the new byte before it,
      the first with that of t, which then becomes the last byte plus j. */
  ghost predicate IsRound(pi: Table, j: nat, x: State48, t: byte, y: State48, u: byte)
  {
    && y[0] == Xor(x[0], pi[t])
    && (forall k :: 1 <= k < 48 ==> y[k] == Xor(x[k], pi[y[k - 1]]))
    && u as int == (y[47] as int + j) % 0x100
  }

  /** Eighteen rounds, the first with t = 0. */
  ghost predicate AreRounds(pi: Table, xs: seq<State48>, ts: seq<byte>)
  {
    && |xs| == |ts| == 19 && ts[0] == 0
    && forall j :: 0 <= j < 18 ==> IsRound(pi, j, xs[j], ts[j], xs[j + 1], ts[j + 1])
  }

  ghost predicate IsCompression(pi: Table, x: State48, block: Block16, y: State48)
  {
    exists xs, ts :: AreRounds(pi, xs, ts) && IsLoaded(x, block, xs[0]) && y == xs[18]
  }

  /** Checksum and state, both zero at first, over the blocks of the message. */
  ghost predicate AreBlocks(pi: Table, m: bytes, sums: seq<Block16>, states: seq<State48>)
    requires |m| % 16 == 0
  {
    && |sums| == |states| == |m| / 16 + 1
    && sums[0] == Fill(0, 16) && states[0] == Fill(0, 48)
    && forall i :: 0 <= i < |m| / 16 ==> IsBlock(pi, m[16 * i..16 * i + 16], sums[i], states[i], sums[i + 1], states[i + 1])
  }

  ghost predicate IsBlock(pi: Table, block: Block16, c: Block16, x: State48, d: Block16, y: State48)
  {
    IsChecksumStep(pi, c, block, d) && IsCompression(pi, x, block, y)
  }

  /** The padded message and then its checksum as the last block. */
  ghost predicate IsSolution(pi: Table, message: bytes, m: bytes, sums: seq<Block16>, states: seq<State48>, x: State48)
  {
    && IsPaddedMessage(m, message) && AreBlocks(pi, m, sums, states)
    && IsCompression(pi, states[|m| / 16], sums[|m| / 16], x)
  }

  /** Section 3.5: the digest is the first 16 bytes of the last state. */
  ghost predicate IsDigest(pi: Table, message: bytes, digest: bytes)
  {
    exists m, sums, states, x: State48 :: IsSolution(pi, message, m, sums, states, x) && digest == x[..16]
  }

  // ----- the functions solve the equations -----

  /** The loop over the positions, up to the k-th. */
  lemma {:induction false} InnerUpTo(pi: Table, x: State48, t: byte, k: nat)
    requires k <= 48
    ensures var (y, u) := Inner(pi, x, t, k);
      && (k == 0 ==> u == t)
      && (k > 0 ==> u == y[k - 1] && y[0] == Xor(x[0], pi[t]))
      && (forall i :: 1 <= i < k ==> y[i] == Xor(x[i], pi[y[i - 1]]))
      && (forall i :: k <= i < 48 ==> y[i] == x[i])
  {
    hide Xor;
    if k > 0 {
      InnerUpTo(pi, x, t, k - 1);
    }
  }

  lemma CompressionSolves(pi: Table, x: State48, block: Block16)
    ensures IsCompression(pi, x, block, Compress(pi, x, block))
  {
    hide Xor, Inner, Rounds, IsRound;
    var z := Load(x, block);
    var xs := seq(19, j requires 0 <= j < 19 => Rounds(pi, z, j).0);
    var ts := seq(19, j requires 0 <= j < 19 => Rounds(pi, z, j).1);
    assert xs[0] == z && ts[0] == 0 by { NoRounds(pi, z); }
    forall j | 0 <= j < 18
      ensures IsRound(pi, j, xs[j], ts[j], xs[j + 1], ts[j + 1])
    {
      RoundSolves(pi, z, j);
    }
    assert AreRounds(pi, xs, ts);
    assert IsLoaded(x, block, xs[0]);
  }

  lemma NoRounds(pi: Table, z: State48)
    ensures Rounds(pi, z, 0) == (z, 0)
  {}

  lemma RoundSolves(pi: Table, z: State48, j: nat)
    ensures var (x, t), (y, u) := Rounds(pi, z, j), Rounds(pi, z, j + 1);
      IsRound(pi, j, x, t, y, u)
  {
    hide Xor, Inner;
    var (x, t) := Rounds(pi, z, j);
    InnerUpTo(pi, x, t, 48);
  }

  lemma {:induction false} SumUpTo(pi: Table, c: Block16, block: Block16, k: nat)
    requires k <= 16
    ensures var (d, t) := SumPrefix(pi, c, block, k);
      && (k == 0 ==> t == c[15])
      && (k > 0 ==> t == d[k - 1] && d[0] == Xor(c[0], pi[Xor(block[0], c[15])]))
      && (forall i :: 1 <= i < k ==> d[i] == Xor(c[i], pi[Xor(block[i], d[i - 1])]))
      && (forall i :: k <= i < 16 ==> d[i] == c[i])
  {
    hide Xor;
    if k > 0 {
      SumUpTo(pi, c, block, k - 1);
    }
  }

  lemma BlockSolves(pi: Table, m: bytes, i: nat)
    requires 16 * i + 16 <= |m|
    ensures var a, b := AbsorbAll(pi, m[..16 * i]), AbsorbAll(pi, m[..16 * i + 16]);
      IsBlock(pi, m[16 * i..16 * i + 16], a.sum, a.state, b.sum, b.state)
  {
    hide AbsorbAll, Compress, IsCompression, SumPrefix, Xor;
    var block: Block16 := m[16 * i..16 * i + 16];
    var a := AbsorbAll(pi, m[..16 * i]);
    assert m[..16 * i + 16] == m[..16 * i] + block;
    AbsorbOneMore(pi, m[..16 * i], block);
    SumUpTo(pi, a.sum, block, 16);
    CompressionSolves(pi, a.state, block);
  }

  /** The digest of module Md2 is one of the document, for every message. */
  lemma DigestSolves(pi: Table, message: bytes)
    ensures IsDigest(pi, message, RfcDigest(pi, message))
  {
    hide AbsorbAll, Compress, IsCompression, IsBlock, SumPrefix, RfcDigest;
    var m := message + PadBlock(|message|);
    var n := |m| / 16;
    assert |m| == 16 * n;
    var sums := seq(n + 1, i requires 0 <= i <= n => AbsorbAll(pi, m[..16 * i]).sum);
    var states := seq(n + 1, i requires 0 <= i <= n => AbsorbAll(pi, m[..16 * i]).state);
    forall i | 0 <= i < n
      ensures IsBlock(pi, m[16 * i..16 * i + 16], sums[i], states[i], sums[i + 1], states[i + 1])
    {
      BlockSolves(pi, m, i);
      assert 16 * (i + 1) == 16 * i + 16;
    }
    assert m[..16 * 0] == [];
    NothingAbsorbed(pi);
    assert AreBlocks(pi, m, sums, states);
    assert m[..16 * n] == m;
    FinishIsDigest(pi, message);
    CompressionSolves(pi, states[n], sums[n]);
    assert IsSolution(pi, message, m, sums, states, Compress(pi, states[n], sums[n]));
  }

  lemma NothingAbsorbed(pi: Table)
    ensures AbsorbAll(pi, []) == ZERO_CORE
  {}

  // ----- and nothing else does -----

  lemma {:induction false} SameSum(pi: Table, c: Block16, block: Block16, d: Block16, e: Block16, k: nat)
    requires IsChecksumStep(pi, c, block, d) && IsChecksumStep(pi, c, block, e) && k <= 16
    ensures d[..k] == e[..k]
  {
    hide Xor;
    if k > 0 {
      SameSum(pi, c, block, d, e, k - 1);
      assert k > 1 ==> d[k - 2] == d[..k - 1][k - 2] == e[..k - 1][k - 2] == e[k - 2];
      assert d[k - 1] == e[k - 1];
    }
  }

  lemma {:induction false} SameRound(pi: Table, j: nat, x: State48, t: byte, y: State48, u: byte, z: State48, w: byte, k: nat)
    requires IsRound(pi, j, x, t, y, u) && IsRound(pi, j, x, t, z, w) && k <= 48
    ensures y[..k] == z[..k]
  {
    hide Xor;
    if k > 0 {
      SameRound(pi, j, x, t, y, u, z, w, k - 1);
      assert k > 1 ==> y[k - 2] == y[..k - 1][k - 2] == z[..k - 1][k - 2] == z[k - 2];
      assert y[k - 1] == z[k - 1];
    }
  }

  lemma {:induction false} RoundsAreThose(pi: Table, xs: seq<State48>, ts: seq<byte>, j: nat)
    requires AreRounds(pi, xs, ts) && j <= 18
    ensures (xs[j], ts[j]) == Rounds(pi, xs[0], j)
  {
    hide Inner, IsRound;
    if j > 0 {
      RoundsAreThose(pi, xs, ts, j - 1);
      var (y, u) := Rounds(pi, xs[0], j);
      RoundSolves(pi, xs[0], j - 1);
      OneRoundOnly(pi, j - 1, xs[j - 1], ts[j - 1], xs[j], ts[j], y, u);
    }
  }

  lemma OneRoundOnly(pi: Table, j: nat, x: State48, t: byte, y: State48, u: byte, z: State48, w: byte)
    requires IsRound(pi, j, x, t, y, u) && IsRound(pi, j, x, t, z, w)
    ensures y == z && u == w
  {
    hide Xor;
    SameRound(pi, j, x, t, y, u, z, w, 48);
    assert y[..48] == y && z[..48] == z;
  }

  lemma CompressionIsThat(pi: Table, x: State48, block: Block16, y: State48)
    requires IsCompression(pi, x, block, y)
    ensures y == Compress(pi, x, block)
  {
    hide Xor, Rounds, IsRound;
    var xs, ts :| AreRounds(pi, xs, ts) && IsLoaded(x, block, xs[0]) && y == xs[18];
    assert xs[0] == Load(x, block) by {
      var z := xs[0];
      assert forall j :: 16 <= j < 32 ==> z[j] == z[16 + (j - 16)];
      assert forall j :: 32 <= j < 48 ==> z[j] == z[32 + (j - 32)];
    }
    RoundsAreThose(pi, xs, ts, 18);
  }

  lemma {:induction false} BlocksAreThose(pi: Table, m: bytes, sums: seq<Block16>, states: seq<State48>, i: nat)
    requires |m| % 16 == 0 && AreBlocks(pi, m, sums, states) && i <= |m| / 16
    ensures AbsorbAll(pi, m[..16 * i]) == Core(states[i], sums[i])
  {
    hide AbsorbAll, Compress, IsCompression, SumPrefix, IsChecksumStep;
    if i == 0 {
      assert m[..16 * 0] == [];
      NothingAbsorbed(pi);
    } else {
      BlocksAreThose(pi, m, sums, states, i - 1);
      var block: Block16, c := m[16 * (i - 1)..16 * (i - 1) + 16], sums[i - 1];
      assert m[..16 * i] == m[..16 * (i - 1)] + block;
      AbsorbOneMore(pi, m[..16 * (i - 1)], block);
      CompressionIsThat(pi, states[i - 1], block, states[i]);
      SumIsThat(pi, c, block, sums[i]);
    }
  }

  lemma SumIsThat(pi: Table, c: Block16, block: Block16, d: Block16)
    requires IsChecksumStep(pi, c, block, d)
    ensures d == SumPrefix(pi, c, block, 16).0
  {
    hide Xor;
    var e := SumPrefix(pi, c, block, 16).0;
    SumUpTo(pi, c, block, 16);
    SameSum(pi, c, block, d, e, 16);
    assert d[..16] == d && e[..16] == e;
  }

  lemma PaddingIsThat(m: bytes, message: bytes)
    requires IsPaddedMessage(m, message)
    ensures m == message + PadBlock(|message|)
  {
    var n := |m| - |message|;
    assert n == 16 - |message| % 16;
  }

  /** For every table and message the digest of module Md2 is the one solution. */
  lemma DigestIsRfc1319(pi: Table, message: bytes, digest: bytes)
    ensures IsDigest(pi, message, digest) <==> digest == RfcDigest(pi, message)
  {
    hide IsPaddedMessage, AreBlocks, IsBlock, IsCompression, RfcDigest;
    DigestSolves(pi, message);
    if IsDigest(pi, message, digest) {
      var m, sums, states, x: State48 :| IsSolution(pi, message, m, sums, states, x) && digest == x[..16];
      SolutionIsThat(pi, message, m, sums, states, x);
    }
  }

  lemma SolutionIsThat(pi: Table, message: bytes, m: bytes, sums: seq<Block16>, states: seq<State48>, x: State48)
    requires IsSolution(pi, message, m, sums, states, x)
    ensures x[..16] == RfcDigest(pi, message)
  {
    hide AbsorbAll, Compress, IsCompression, IsBlock, RfcDigest, IsPaddedMessage;
    var n := |m| / 16;
    assert |m| == 16 * n && m[..16 * n] == m by { WholeBlocks(m, message); }
    PaddingIsThat(m, message);
    BlocksAreThose(pi, m, sums, states, n);
    CompressionIsThat(pi, states[n], sums[n], x);
    FinishIsDigest(pi, message);
  }

  lemma WholeBlocks(m: bytes, message: bytes)
    requires IsPaddedMessage(m, message)
    ensures |m| == 16 * (|m| / 16) && m[..16 * (|m| / 16)] == m
  {}
}
